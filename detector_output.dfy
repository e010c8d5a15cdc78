/**
 * The exec callback of detectFaceAndProcess: four regular-expression searches over the
 * detector's stdout, two JSON.parse calls and the null-embedding guard.
 */
module DetectorOutput {
  import opened Wrappers
  import opened Text
  import opened Json

  const OriginalPathLabel := "Original path:"
  const ProcessedPathLabel := "Processed path:"
  const OriginalEmbeddingLabel := "Original embedding:"
  const ProcessedEmbeddingLabel := "Processed embedding:"

  const NotProcessed := "Face not processed correctly."
  const NullEmbedding := "Embedding vector is null. Ensure the face is clearly visible and try again."

  /** The index of the first newline at or after `i`, or the end of `s`. */
  function LineEnd(s: string, i: nat): (j: nat)
    requires i <= |s|
    ensures i <= j <= |s|
    ensures j == |s| || s[j] == '\n'
    ensures forall k :: i <= k < j ==> s[k] != '\n'
    decreases |s| - i
  {
    if i == |s| || s[i] == '\n' then i else LineEnd(s, i + 1)
  }

  /** The group `([^\n]+)` of `tag\s([^\n]+)` tried at index `i`, where `tag` occurs. */
  function CaptureAt(s: string, tag: string, i: nat): (r: Option<string>)
    requires StartsAt(s, tag, i)
    ensures r.Some? ==> r.value != [] && '\n' !in r.value
  {
    var j := i + |tag|;
    if j + 1 < |s| && IsJsSpace(s[j]) && s[j + 1] != '\n' then
      var c := s[j + 1..LineEnd(s, j + 1)];
      assert forall k :: 0 <= k < |c| ==> c[k] == s[j + 1 + k];
      Some(c)
    else None
  }

  /** `s.match(/tag\s([^\n]+)/)[1]` when the search starts at index `i`: the leftmost match wins. */
  function MatchFrom(s: string, tag: string, i: nat): (r: Option<string>)
    requires i <= |s|
    ensures r.Some? ==> r.value != [] && '\n' !in r.value
    decreases |s| - i
  {
    if StartsAt(s, tag, i) && CaptureAt(s, tag, i).Some? then CaptureAt(s, tag, i)
    else if i == |s| then None
    else MatchFrom(s, tag, i + 1)
  }

  function Match(s: string, tag: string): Option<string> {
    MatchFrom(s, tag, 0)
  }

  /** Where `tag` occurs nowhere, the search finds nothing. */
  lemma {:induction false} NoLabelNoMatch(s: string, tag: string, i: nat)
    requires i <= |s| && Absent(s, tag)
    ensures MatchFrom(s, tag, i) == None
    decreases |s| - i
  {
    if i < |s| {
      NoLabelNoMatch(s, tag, i + 1);
    }
  }

  /**
   * The search skips positions where `tag` does not occur and captures the rest of the line
   * after one white-space character at the first position where it does.
   */
  lemma {:induction false} MatchFirstLine(s: string, tag: string, i: nat, at: nat, value: string)
    requires i <= at && at + |tag| + 1 + |value| < |s|
    requires forall k: nat :: i <= k < at ==> !StartsAt(s, tag, k)
    requires s[at..at + |tag| + 1 + |value| + 1] == tag + " " + value + "\n"
    requires value != [] && '\n' !in value
    ensures MatchFrom(s, tag, i) == Some(value)
    decreases at - i
  {
    var line := tag + " " + value + "\n";
    assert StartsAt(s, tag, at) by {
      forall k | 0 <= k < |tag| ensures s[at + k] == tag[k] {
        assert s[at + k] == line[k];
      }
      assert s[at..at + |tag|] == tag;
    }
    if i < at {
      MatchFirstLine(s, tag, i + 1, at, value);
    } else {
      var j := at + |tag|;
      assert s[j] == line[|tag|] == ' ';
      assert s[j + 1] == value[0];
      var e := j + 1 + |value|;
      assert s[e] == '\n';
      forall k | j + 1 <= k < e ensures s[k] != '\n' {
        assert s[k] == line[k - at];
      }
      assert LineEnd(s, j + 1) == e by { LineEndAt(s, j + 1, e); }
      forall k | 0 <= k < |value| ensures s[j + 1 + k] == value[k] {
        assert s[j + 1 + k] == line[|tag| + 1 + k];
      }
      assert s[j + 1..e] == value;
    }
  }

  lemma {:induction false} LineEndAt(s: string, i: nat, e: nat)
    requires i <= e < |s| && s[e] == '\n'
    requires forall k :: i <= k < e ==> s[k] != '\n'
    ensures LineEnd(s, i) == e
    decreases e - i
  {
    if i < e {
      LineEndAt(s, i + 1, e);
    }
  }

  /** What the detector reported about a face it processed. */
  datatype Detection = Detection(originalPath: string, processedPath: string,
                                 originalEmbedding: Json, processedEmbedding: Json)

  /** How the promise of detectFaceAndProcess settles. */
  datatype Settlement =
    | Resolved(detection: Detection)
    | Rejected(reason: string)
      /** JSON.parse threw inside the exec callback, outside every try block. */
    | Thrown

  /** The exec callback as written. */
  function Interpret(stdout: string, codec: Codec): (r: Settlement)
    ensures r.Resolved? ==> !Falsy(r.detection.originalEmbedding) && !Falsy(r.detection.processedEmbedding)
    ensures r.Resolved? ==>
      && Match(stdout, OriginalPathLabel).Some? && r.detection.originalPath == Trim(Match(stdout, OriginalPathLabel).value)
      && Match(stdout, ProcessedPathLabel).Some? && r.detection.processedPath == Trim(Match(stdout, ProcessedPathLabel).value)
    ensures r.Rejected? ==> r.reason == NotProcessed || r.reason == NullEmbedding
  {
    var op := Match(stdout, OriginalPathLabel);
    var pp := Match(stdout, ProcessedPathLabel);
    var oe := Match(stdout, OriginalEmbeddingLabel);
    var pe := Match(stdout, ProcessedEmbeddingLabel);
    if op.None? || pp.None? || oe.None? || pe.None? then Rejected(NotProcessed)
    else
      match codec.parse(oe.value)
      case None => Thrown
      case Some(o) =>
        match codec.parse(pe.value)
        case None => Thrown
        case Some(p) =>
          if Falsy(o) || Falsy(p) then Rejected(NullEmbedding)
          else Resolved(Detection(Trim(op.value), Trim(pp.value), o, p))
  }

  /**
   * The callback as evidently intended: an embedding the detector could not compute, printed
   * as text JSON.parse refuses, is reported with the null-embedding reason instead of throwing.
   */
  function InterpretIntended(stdout: string, codec: Codec): (r: Settlement)
    ensures !r.Thrown?
    ensures Interpret(stdout, codec).Thrown? ==> r == Rejected(NullEmbedding)
    ensures !Interpret(stdout, codec).Thrown? ==> r == Interpret(stdout, codec)
  {
    var op := Match(stdout, OriginalPathLabel);
    var pp := Match(stdout, ProcessedPathLabel);
    var oe := Match(stdout, OriginalEmbeddingLabel);
    var pe := Match(stdout, ProcessedEmbeddingLabel);
    if op.None? || pp.None? || oe.None? || pe.None? then Rejected(NotProcessed)
    else
      var o := codec.parse(oe.value);
      var p := codec.parse(pe.value);
      if o.None? || p.None? || Falsy(o.value) || Falsy(p.value) then Rejected(NullEmbedding)
      else Resolved(Detection(Trim(op.value), Trim(pp.value), o.value, p.value))
  }

  /** Output missing any of the four labels is rejected as not processed, whatever else it says. */
  lemma MissingLabelRejects(stdout: string, codec: Codec, tag: string)
    requires tag in [OriginalPathLabel, ProcessedPathLabel, OriginalEmbeddingLabel, ProcessedEmbeddingLabel]
    requires Absent(stdout, tag)
    ensures Interpret(stdout, codec) == Rejected(NotProcessed)
  {
    NoLabelNoMatch(stdout, tag, 0);
  }

  /** An empty embedding array passes the null guard: only falsy JSON values are refused. */
  lemma EmptyArrayAccepted(stdout: string, codec: Codec)
    requires Match(stdout, OriginalPathLabel).Some? && Match(stdout, ProcessedPathLabel).Some?
    requires Match(stdout, OriginalEmbeddingLabel).Some? && Match(stdout, ProcessedEmbeddingLabel).Some?
    requires codec.parse(Match(stdout, OriginalEmbeddingLabel).value) == Some(JArr([]))
    requires codec.parse(Match(stdout, ProcessedEmbeddingLabel).value) == Some(JArr([]))
    ensures Interpret(stdout, codec).Resolved?
    ensures Interpret(stdout, codec).detection.originalEmbedding == JArr([])
  {
    var oe := Match(stdout, OriginalEmbeddingLabel).value;
    var pe := Match(stdout, ProcessedEmbeddingLabel).value;
    assert codec.parse(oe) == Some(JArr([])) && codec.parse(pe) == Some(JArr([]));
    assert !Falsy(JArr([]));
    var op := Match(stdout, OriginalPathLabel).value;
    var pp := Match(stdout, ProcessedPathLabel).value;
    assert Interpret(stdout, codec) == Resolved(Detection(Trim(op), Trim(pp), JArr([]), JArr([])));
  }

  /** A JSON null embedding is refused with the null-embedding reason. */
  lemma NullEmbeddingRejected(stdout: string, codec: Codec)
    requires Match(stdout, OriginalPathLabel).Some? && Match(stdout, ProcessedPathLabel).Some?
    requires Match(stdout, OriginalEmbeddingLabel).Some? && Match(stdout, ProcessedEmbeddingLabel).Some?
    requires codec.parse(Match(stdout, OriginalEmbeddingLabel).value) == Some(JNull)
    requires codec.parse(Match(stdout, ProcessedEmbeddingLabel).value).Some?
    ensures Interpret(stdout, codec) == Rejected(NullEmbedding)
  {
  }
}
