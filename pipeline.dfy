/**
 * How the score records written by gpt_eval.py read back in the three
 * scorers: each record is one line holding five members of the expected types.
 */
module Pipeline {
  import opened Wrappers
  import opened ScoreLines
  import GptEval
  import ScoreExtraction
  import WiseScience
  import WiseSpaceTime
  import WiseCulture

  /** The decoded form of one line of the score results file. */
  function LineOf(r: GptEval.ScoreRecord): (line: Line)
    ensures AllNumeric(line) && line.promptId == Present(r.promptId as real) && line.subcategory == Present(r.subcategory)
    ensures HasScore(line, ScoreExtraction.Missing) <==>
              ScoreExtraction.Missing in [r.consistency, r.realism, r.aestheticQuality]
  {
    Object(Present(r.consistency), Present(r.realism), Present(r.aestheticQuality),
           Present(r.promptId as real), Present(r.subcategory))
  }

  function LinesOf(records: seq<GptEval.ScoreRecord>): (lines: seq<Line>)
    ensures |lines| == |records|
    ensures forall k :: 0 <= k < |lines| ==> lines[k] == LineOf(records[k])
  {
    seq(|records|, k requires 0 <= k < |records| => LineOf(records[k]))
  }

  /** No line of a score results file makes any of the three scorers raise. */
  lemma RecordLinesNeverRaise(records: seq<GptEval.ScoreRecord>)
    ensures forall k :: 0 <= k < |records| ==>
              && !WiseScience.Raises(LinesOf(records)[k])
              && !WiseSpaceTime.Raises(LinesOf(records)[k])
              && !WiseCulture.Raises(LinesOf(records)[k])
  {
  }

  /**
   * The records of one failed or unanswered evaluation make the space-time
   * and culture scorers skip the whole file.
   */
  lemma {:induction false} MissingScoreSkipsFile(records: seq<GptEval.ScoreRecord>, k: nat)
    requires k < |records|
    requires ScoreExtraction.Missing in [records[k].consistency, records[k].realism, records[k].aestheticQuality]
    ensures WiseSpaceTime.Processed(LinesOf(records)) == Skipped
    ensures WiseCulture.Processed(LinesOf(records)) == Skipped
  {
    var lines := LinesOf(records);
    RecordLinesNeverRaise(records);
    assert HasScore(lines[k], WiseSpaceTime.Sentinel);
    assert HasScore(lines[k], WiseCulture.Sentinel);
  }

  /**
   * The science scorer looks for 999, which gpt_eval.py never writes: a file
   * of at least 300 records in which every evaluation failed, all scores 9.9,
   * still gets a report.
   */
  lemma ScienceReportsFailedEvaluations(records: seq<GptEval.ScoreRecord>)
    requires |records| >= WiseScience.MinLines
    requires forall k :: 0 <= k < |records| ==>
               records[k].consistency == records[k].realism == records[k].aestheticQuality == ScoreExtraction.Missing
    ensures WiseScience.Processed(WiseScience.Read(LinesOf(records))).Some?
    ensures forall k :: 0 <= k < |records| ==>
              ScoresWithin(LinesOf(records)[k], ScoreExtraction.Missing, ScoreExtraction.Missing)
  {
    var lines := LinesOf(records);
    RecordLinesNeverRaise(records);
    forall k | 0 <= k < |lines|
      ensures !HasScore(lines[k], WiseScience.ErrorSentinel)
      ensures ScoresWithin(lines[k], ScoreExtraction.Missing, ScoreExtraction.Missing)
    {
      assert lines[k] == LineOf(records[k]);
    }
    assert WiseScience.Accepted(lines);
  }

  /** In such a report every category average is 9.9 / 2, far outside `[0, 1]`. */
  lemma ScienceAverageOfFailures(lines: seq<Line>)
    requires WiseScience.Processed(WiseScience.Read(lines)).Some?
    requires forall k :: 0 <= k < |lines| ==> ScoresWithin(lines[k], ScoreExtraction.Missing, ScoreExtraction.Missing)
    ensures var r := WiseScience.Processed(WiseScience.Read(lines)).value;
            forall c :: c in r.average ==> r.average[c] == ScoreExtraction.Missing / 2.0
  {
    var buckets := WiseScience.Buckets(lines);
    var average := WiseScience.ReportOf(buckets).average;
    forall c | c in average ensures average[c] == ScoreExtraction.Missing / 2.0 {
      var xs := buckets[c];
      assert xs == WiseScience.Contributions(lines, c);
      FailedContributions(lines, c);
      MeanBounds(xs, ScoreExtraction.Missing / 2.0, ScoreExtraction.Missing / 2.0);
    }
  }

  /** Every score a line of all-9.9 scores adds to a science category is 9.9 / 2. */
  lemma {:induction false} FailedContributions(lines: seq<Line>, c: WiseScience.Category)
    requires forall k :: 0 <= k < |lines| && AllNumeric(lines[k]) ==>
               ScoresWithin(lines[k], ScoreExtraction.Missing, ScoreExtraction.Missing)
    ensures forall j :: 0 <= j < |WiseScience.Contributions(lines, c)| ==>
              WiseScience.Contributions(lines, c)[j] == ScoreExtraction.Missing / 2.0
    decreases |lines|
  {
    if lines != [] {
      var init := lines[..|lines| - 1];
      assert forall k :: 0 <= k < |init| ==> init[k] == lines[k];
      FailedContributions(init, c);
    }
  }

  /**
   * Nothing between the evaluation and the scorers bounds the scores to
   * `[0, 2]`: a file of 400 or more records scored 9, 9, 9 is accepted by the
   * culture scorer with an average of 4.5, far outside `[0, 1]`.
   */
  lemma NinesReachCultureReport(records: seq<GptEval.ScoreRecord>)
    requires |records| >= WiseCulture.MinLines
    requires forall k :: 0 <= k < |records| ==>
               records[k].consistency == records[k].realism == records[k].aestheticQuality == 9.0
    ensures WiseCulture.Processed(LinesOf(records)) == Accepted(WiseCulture.Report(9.0 * |records| as real, 4.5))
  {
    var lines := LinesOf(records);
    NinesLines(records);
    assert !exists k :: 0 <= k < |lines| && WiseCulture.Raises(lines[k]);
    assert !exists k :: 0 <= k < |lines| && HasScore(lines[k], WiseCulture.Sentinel);
    WiseCulture.OneScorePerLine(lines);
    var xs := WiseCulture.Scores(lines);
    assert WiseCulture.Processed(lines) == Accepted(WiseCulture.ReportOf(xs));
    assert forall j :: 0 <= j < |xs| ==> xs[j] == 9.0;
    SumOfConstant(xs, 9.0);
    ConstantReport(xs, 9.0);
  }

  /** The culture report of n scores all equal to v: total n·v, average v / 2. */
  lemma ConstantReport(xs: seq<real>, v: real)
    requires |xs| > 0 && Sum(xs) == |xs| as real * v
    ensures WiseCulture.ReportOf(xs) == WiseCulture.Report(v * |xs| as real, v / 2.0)
  {
    var n := |xs| as real;
    assert (|xs| * 2) as real == 2.0 * n;
    assert (v / 2.0) * (2.0 * n) == v * n;
  }

  /** The lines of records scored 9, 9, 9: numeric, free of the 9.9 sentinel, each culture score 9. */
  lemma NinesLines(records: seq<GptEval.ScoreRecord>)
    requires forall k :: 0 <= k < |records| ==>
               records[k].consistency == records[k].realism == records[k].aestheticQuality == 9.0
    ensures forall k :: 0 <= k < |records| ==>
              && AllNumeric(LinesOf(records)[k]) && !HasScore(LinesOf(records)[k], WiseCulture.Sentinel)
              && WiseCulture.LineScore(LinesOf(records)[k]) == 9.0
  {
    var lines := LinesOf(records);
    forall k | 0 <= k < |lines|
      ensures AllNumeric(lines[k]) && !HasScore(lines[k], WiseCulture.Sentinel) && WiseCulture.LineScore(lines[k]) == 9.0
    {
      assert lines[k] == LineOf(records[k]);
    }
  }
}
