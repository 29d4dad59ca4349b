/**
 * wise_culture.py: the cultural-common-sense scorer. One pass over the lines of
 * a score file counts them, raises a flag on the 9.9 sentinel and collects the
 * WiScore of every line in one flat list. Nothing is caught: a line that
 * cannot be decoded or scored raises out of the script. `main` keeps the
 * result of each `_scores.jsonl` file with at least four `_`-separated parts
 * under the fourth part, and reports the models of a fixed list in its order.
 */
module WiseCulture {
  import opened Wrappers
  import opened ScoreLines
  import Text

  /** The score value that marks a failed or missing evaluation. */
  const Sentinel: real := 9.9

  /** Files with fewer lines than this are skipped. */
  const MinLines: nat := 400

  /** `calculate_wiscore`: the weighted score, not halved. */
  function Wiscore(c: real, r: real, a: real): (w: real)
    ensures w == (7.0 * c + 2.0 * r + a) / 10.0
    ensures 0.0 <= c <= 2.0 && 0.0 <= r <= 2.0 && 0.0 <= a <= 2.0 ==> 0.0 <= w <= 2.0
  {
    0.7 * c + 0.2 * r + 0.1 * a
  }

  /** A line on which the loop raises: it is not a decodable object, or a score is absent or not a number. */
  predicate Raises(line: Line) {
    !AllNumeric(line)
  }

  /** The WiScore of a line that does not raise. */
  function LineScore(line: Line): real
    requires AllNumeric(line)
  {
    Wiscore(line.consistency.value, line.realism.value, line.aestheticQuality.value)
  }

  /** The WiScore of every line that does not raise, in line order. */
  function Scores(lines: seq<Line>): (xs: seq<real>)
    ensures |xs| <= |lines|
    decreases |lines|
  {
    if lines == [] then []
    else
      var before := Scores(lines[..|lines| - 1]);
      var line := lines[|lines| - 1];
      if AllNumeric(line) then before + [LineScore(line)] else before
  }

  /** What `process_jsonl_file` returns. */
  datatype Report = Report(total: real, average: real)

  /** The total and the halved mean of the scores. */
  function ReportOf(scores: seq<real>): (r: Report)
    ensures |scores| > 0 ==> r.average * (|scores| * 2) as real == r.total
    ensures |scores| == 0 ==> r == Report(0.0, 0.0)
  {
    var total := Sum(scores);
    Report(total, if |scores| > 0 then total / (|scores| * 2) as real else 0.0)
  }

  /** The result of `process_jsonl_file` on the lines of a file. */
  function Processed(lines: seq<Line>): FileOutcome<Report> {
    if exists k :: 0 <= k < |lines| && Raises(lines[k]) then Raised
    else if (exists k :: 0 <= k < |lines| && HasScore(lines[k], Sentinel)) || |lines| < MinLines then Skipped
    else Accepted(ReportOf(Scores(lines)))
  }

  /**
   * `process_jsonl_file`: it raises on the first line that cannot be scored;
   * otherwise it skips the file when any score is 9.9 or there are fewer
   * than 400 lines, and else reports the total and the halved mean.
   */
  method ProcessJsonlFile(lines: seq<Line>) returns (result: FileOutcome<Report>)
    ensures result == Processed(lines)
  {
    var allScores: seq<real> := [];
    var totalObjects := 0;
    var has99 := false;
    for i := 0 to |lines|
      invariant totalObjects == i
      invariant has99 <==> exists k :: 0 <= k < i && HasScore(lines[k], Sentinel)
      invariant forall k :: 0 <= k < i ==> !Raises(lines[k])
      invariant allScores == Scores(lines[..i])
    {
      assert lines[..i + 1][..i] == lines[..i];
      totalObjects := totalObjects + 1;
      var line := lines[i];
      if !line.Object? {
        return Raised;
      }
      if line.consistency.Missing? || line.realism.Missing? || line.aestheticQuality.Missing? {
        return Raised;
      }
      if HasScore(line, Sentinel) {
        has99 := true;
      }
      if !AllNumeric(line) {
        return Raised;
      }
      var wiscore := Wiscore(line.consistency.value, line.realism.value, line.aestheticQuality.value);
      allScores := allScores + [wiscore];
    }
    assert lines[..|lines|] == lines;
    if has99 || totalObjects < MinLines {
      return Skipped;
    }
    var totalScore := Sum(allScores);
    var avgScore := if |allScores| > 0 then totalScore / (|allScores| * 2) as real else 0.0;
    result := Accepted(Report(totalScore, avgScore));
  }

  /** When no line raises, every line contributes exactly one score to the list. */
  lemma {:induction false} OneScorePerLine(lines: seq<Line>)
    requires forall k :: 0 <= k < |lines| ==> AllNumeric(lines[k])
    ensures |Scores(lines)| == |lines|
    ensures forall k :: 0 <= k < |lines| ==> AllNumeric(lines[k]) && Scores(lines)[k] == LineScore(lines[k])
    decreases |lines|
  {
    if lines != [] {
      var init := lines[..|lines| - 1];
      assert forall k :: 0 <= k < |init| ==> init[k] == lines[k];
      OneScorePerLine(init);
    }
  }

  /** A report has been computed from at least 400 scores, one per line. */
  lemma ReportHasEnoughScores(lines: seq<Line>)
    requires Processed(lines).Accepted?
    ensures |Scores(lines)| == |lines| >= MinLines
    ensures Processed(lines).report.total == Sum(Scores(lines))
    ensures Processed(lines).report.average == Sum(Scores(lines)) / (|lines| * 2) as real
  {
    OneScorePerLine(lines);
  }

  /** With scores in `[0, 2]` the reported average lies in `[0, 1]`. */
  lemma AverageInUnitInterval(lines: seq<Line>)
    requires Processed(lines).Accepted?
    requires forall k :: 0 <= k < |lines| ==> ScoresWithin(lines[k], 0.0, 2.0)
    ensures 0.0 <= Processed(lines).report.average <= 1.0
  {
    OneScorePerLine(lines);
    var xs := Scores(lines);
    assert forall j :: 0 <= j < |xs| ==> 0.0 <= xs[j] <= 2.0;
    HalfMeanBounds(xs);
  }

  /** A file of at least 400 lines that all score 2 on every metric averages exactly 1. */
  lemma FullMarksAverageOne(lines: seq<Line>)
    requires |lines| >= MinLines
    requires forall k :: 0 <= k < |lines| ==> ScoresWithin(lines[k], 2.0, 2.0)
    ensures Processed(lines) == Accepted(Report(2.0 * |lines| as real, 1.0))
  {
    forall k | 0 <= k < |lines| ensures AllNumeric(lines[k]) && !HasScore(lines[k], Sentinel) {
      assert ScoresWithin(lines[k], 2.0, 2.0);
    }
    OneScorePerLine(lines);
    var xs := Scores(lines);
    forall j | 0 <= j < |xs| ensures xs[j] == 2.0 {
      assert ScoresWithin(lines[j], 2.0, 2.0);
      assert xs[j] == LineScore(lines[j]);
    }
    SumOfConstant(xs, 2.0);
    var n := |xs| as real;
    assert (|xs| * 2) as real == 2.0 * n;
    assert (2.0 * n) / (2.0 * n) == 1.0;
  }

  /** A file of the directory listing, with the decoded lines it holds. */
  datatype ScoreFile = ScoreFile(name: string, lines: seq<Line>)

  const ScoresSuffix: string := "_scores.jsonl"

  /** `parts[3]` of `filename.split('_')`, or `None` when there are fewer than four parts and the file is ignored. */
  function ModelNameOf(filename: string): (name: Option<string>)
    ensures name.Some? <==> |Text.Split(filename, '_')| >= 4
    ensures name.Some? ==> name.value == Text.Split(filename, '_')[3]
    ensures name.Some? ==> '_' !in name.value
  {
    var parts := Text.Split(filename, '_');
    if |parts| >= 4 then Some(parts[3]) else None
  }

  /** The model name is the fourth '_'-free piece of the name, whatever the pieces before it and whatever follows it. */
  lemma ModelNameIsFourthPiece(a: string, b: string, c: string, m: string, rest: string)
    requires '_' !in a && '_' !in b && '_' !in c && '_' !in m
    ensures ModelNameOf(a + ['_'] + (b + ['_'] + (c + ['_'] + m))) == Some(m)
    ensures ModelNameOf(a + ['_'] + (b + ['_'] + (c + ['_'] + (m + ['_'] + rest)))) == Some(m)
  {
    Text.SplitWithoutSeparator(m, '_');
    Text.SplitAfterPart(c, m, '_');
    Text.SplitAfterPart(b, c + ['_'] + m, '_');
    Text.SplitAfterPart(a, b + ['_'] + (c + ['_'] + m), '_');
    Text.SplitAfterPart(m, rest, '_');
    Text.SplitAfterPart(c, m + ['_'] + rest, '_');
    Text.SplitAfterPart(b, c + ['_'] + (m + ['_'] + rest), '_');
    Text.SplitAfterPart(a, b + ['_'] + (c + ['_'] + (m + ['_'] + rest)), '_');
  }

  /** A model name holding '_' is cut at its first '_': `cultural_common_sense_<a>_<b>_scores.jsonl` is stored under `<a>`. */
  lemma ModelNameWithUnderscore(a: string, b: string)
    requires '_' !in a
    ensures ModelNameOf("cultural_common_sense_" + a + "_" + b + ScoresSuffix) == Some(a)
  {
    var name := "cultural_common_sense_" + a + "_" + b + ScoresSuffix;
    assert name == "cultural" + ['_'] + ("common" + ['_'] + ("sense" + ['_'] + (a + ['_'] + (b + ScoresSuffix))));
    ModelNameIsFourthPiece("cultural", "common", "sense", a, b + ScoresSuffix);
  }

  /** The prefix is not checked: a space-time score file `spatio-temporal_reasoning_<model>_scores.jsonl` is stored under `scores.jsonl`. */
  lemma ForeignScoreFileName(model: string)
    requires '_' !in model
    ensures Text.EndsWith("spatio-temporal_reasoning_" + model + ScoresSuffix, ScoresSuffix)
    ensures ModelNameOf("spatio-temporal_reasoning_" + model + ScoresSuffix) == Some("scores.jsonl")
  {
    var name := "spatio-temporal_reasoning_" + model + ScoresSuffix;
    assert name == "spatio-temporal" + ['_'] + ("reasoning" + ['_'] + (model + ['_'] + "scores.jsonl"));
    ModelNameIsFourthPiece("spatio-temporal", "reasoning", model, "scores.jsonl", "");
    assert name[|name| - |ScoresSuffix|..] == ScoresSuffix;
  }

  /** `main` names the model of `cultural_common_sense_<model>_scores.jsonl` by `<model>`. */
  lemma ModelNameOfScoreFile(filename: string, model: string)
    requires '_' !in model
    requires filename == "cultural_common_sense_" + model + ScoresSuffix
    ensures Text.EndsWith(filename, ScoresSuffix)
    ensures ModelNameOf(filename) == Some(model)
  {
    var a, b, c, d := "cultural", "common", "sense", "scores.jsonl";
    assert filename == a + ['_'] + (b + ['_'] + (c + ['_'] + (model + ['_'] + d)));
    assert '_' !in a && '_' !in b && '_' !in c && '_' !in d;
    FiveParts(a, b, c, model, d);
    assert filename[|filename| - |ScoresSuffix|..] == ScoresSuffix;
  }

  /** Five '_'-free pieces joined by '_' split back into those pieces. */
  lemma FiveParts(a: string, b: string, c: string, m: string, d: string)
    requires '_' !in a && '_' !in b && '_' !in c && '_' !in m && '_' !in d
    ensures Text.Split(a + ['_'] + (b + ['_'] + (c + ['_'] + (m + ['_'] + d))), '_') == [a, b, c, m, d]
  {
    Text.SplitWithoutSeparator(d, '_');
    Text.SplitAfterPart(m, d, '_');
    Text.SplitAfterPart(c, m + ['_'] + d, '_');
    Text.SplitAfterPart(b, c + ['_'] + (m + ['_'] + d), '_');
    Text.SplitAfterPart(a, b + ['_'] + (c + ['_'] + (m + ['_'] + d)), '_');
  }

  /** Processing the file raises, so `main` raises. */
  predicate Crashes(f: ScoreFile) {
    Text.EndsWith(f.name, ScoresSuffix) && ModelNameOf(f.name).Some? && Processed(f.lines).Raised?
  }

  /** The file yields a result that `main` stores under `name`. */
  predicate AcceptedAs(f: ScoreFile, name: string) {
    Text.EndsWith(f.name, ScoresSuffix) && ModelNameOf(f.name) == Some(name) && Processed(f.lines).Accepted?
  }

  /** What one file does to `results` in the first loop of `main`. */
  function EffectOf(f: ScoreFile): (e: FileEffect<Report>)
    ensures e.Crash? <==> Crashes(f)
    ensures forall name :: StoresUnder(e, name) <==> AcceptedAs(f, name)
    ensures e.Store? ==> Processed(f.lines) == Accepted(e.report)
  {
    if !Text.EndsWith(f.name, ScoresSuffix) then Ignore
    else match ModelNameOf(f.name)
      case None => Ignore
      case Some(name) =>
        match Processed(f.lines)
        case Raised => Crash
        case Skipped => Ignore
        case Accepted(report) => Store(name, report)
  }

  /** The effects of the files of a listing, in listing order. */
  function Effects(files: seq<ScoreFile>): (effects: seq<FileEffect<Report>>)
    ensures |effects| == |files|
    ensures forall k :: 0 <= k < |files| ==> effects[k] == EffectOf(files[k])
  {
    seq(|files|, k requires 0 <= k < |files| => EffectOf(files[k]))
  }

  /** The `results` dictionary after the files in listing order, or `None` if `main` raised. */
  function Collected(files: seq<ScoreFile>): Option<map<string, Report>> {
    Fold(Effects(files))
  }

  /** The effects of a prefix of the listing are a prefix of its effects. */
  lemma EffectsOfPrefix(files: seq<ScoreFile>, i: nat)
    requires i < |files|
    ensures Effects(files[..i + 1]) == Effects(files[..i]) + [EffectOf(files[i])]
    ensures Effects(files)[..i + 1] == Effects(files[..i + 1])
  {
    assert files[..i + 1][..i] == files[..i];
  }

  /** The first loop of `main`. */
  method CollectResults(files: seq<ScoreFile>) returns (results: Option<map<string, Report>>)
    ensures results == Collected(files)
  {
    var found: map<string, Report> := map[];
    for i := 0 to |files|
      invariant Collected(files[..i]) == Some(found)
    {
      EffectsOfPrefix(files, i);
      var filename := files[i].name;
      if Text.EndsWith(filename, ScoresSuffix) {
        var parts := Text.Split(filename, '_');
        if |parts| >= 4 {
          var modelName := parts[3];
          var scores := ProcessJsonlFile(files[i].lines);
          if scores.Raised? {
            CrashIsFinal(files, i);
            return None;
          }
          if scores.Accepted? {
            found := found[modelName := scores.report];
          }
        }
      }
    }
    assert files[..|files|] == files;
    return Some(found);
  }

  /** Once `main` has raised on a file, later files change nothing. */
  lemma CrashIsFinal(files: seq<ScoreFile>, i: nat)
    requires i < |files| && Collected(files[..i + 1]).None?
    ensures Collected(files).None?
  {
    EffectsOfPrefix(files, i);
    FoldCrashIsFinal(Effects(files), i);
  }

  /** `main` raises exactly when some file makes it raise. */
  lemma CollectedRaisesExactly(files: seq<ScoreFile>)
    ensures Collected(files).None? <==> exists k :: 0 <= k < |files| && Crashes(files[k])
  {
    var effects := Effects(files);
    FoldRaisesExactly(effects);
    if exists k :: 0 <= k < |files| && Crashes(files[k]) {
      var k :| 0 <= k < |files| && Crashes(files[k]);
      assert effects[k].Crash?;
    }
  }

  /** A model has a result exactly when some file was accepted under its name. */
  lemma ResultExactlyForAccepted(files: seq<ScoreFile>, name: string)
    requires Collected(files).Some?
    ensures name in Collected(files).value <==> exists k :: 0 <= k < |files| && AcceptedAs(files[k], name)
  {
    var effects := Effects(files);
    FoldStoredExactly(effects, name);
    if exists k :: 0 <= k < |files| && AcceptedAs(files[k], name) {
      var k :| 0 <= k < |files| && AcceptedAs(files[k], name);
      assert StoresUnder(effects[k], name);
    }
  }

  /** A model's result is that of the last file accepted under its name, in listing order. */
  lemma LastAcceptedFileWins(files: seq<ScoreFile>, name: string)
    requires Collected(files).Some? && name in Collected(files).value
    ensures exists k :: 0 <= k < |files| && AcceptedAs(files[k], name) &&
                        Collected(files).value[name] == Processed(files[k].lines).report &&
                        forall q :: k < q < |files| ==> !AcceptedAs(files[q], name)
  {
    var effects := Effects(files);
    FoldLastStoreWins(effects, name);
    var k :| 0 <= k < |effects| && StoresUnder(effects[k], name) &&
             Fold(effects).value[name] == effects[k].report &&
             forall q :: k < q < |effects| ==> !StoresUnder(effects[q], name);
    assert AcceptedAs(files[k], name);
    forall q | k < q < |files| ensures !AcceptedAs(files[q], name) {
      assert !StoresUnder(effects[q], name);
    }
  }

  /** The list of models `main` reports on, in its order. */
  const ModelOrder: seq<string> := [
    "FLUX.1-dev",
    "FLUX.1-schnell",
    "PixArt-XL-2-1024-MS",
    "playground-v2.5-1024px-aesthetic",
    "stable-diffusion-v1-5",
    "stable-diffusion-2-1",
    "stable-diffusion-3-medium-diffusers",
    "stable-diffusion-3.5-medium",
    "stable-diffusion-3.5-large",
    "Emu3-Gen",
    "Janus-1.3B",
    "JanusFlow-1.3B",
    "Janus-Pro-1B",
    "Janus-Pro-7B",
    "Orthus-7B-base",
    "Orthus-7B-instruct",
    "show-o-demo",
    "show-o-demo-512",
    "vila-u-7b-256",
    "stable-diffusion-xl-base-0.9"
  ]

  /** One block of the printed report. */
  datatype ModelLine = Found(model: string, total: real, average: real) | NoData(model: string)

  /**
   * The second loop of `main`: one block per listed model in list order, the
   * total and average of a model with a result, "No valid data found." for any other.
   */
  function ReportLines(results: map<string, Report>): (out: seq<ModelLine>)
    ensures |out| == |ModelOrder|
    ensures forall i :: 0 <= i < |out| ==> out[i].model == ModelOrder[i]
    ensures forall i :: 0 <= i < |out| ==> (out[i].Found? <==> ModelOrder[i] in results)
    ensures forall i :: 0 <= i < |out| && out[i].Found? ==>
              out[i].total == results[ModelOrder[i]].total && out[i].average == results[ModelOrder[i]].average
  {
    seq(|ModelOrder|, i requires 0 <= i < |ModelOrder| =>
      var model := ModelOrder[i];
      if model in results then Found(model, results[model].total, results[model].average)
      else NoData(model))
  }

  /** What `main` prints, or `None` when it raises before printing. */
  function Main(files: seq<ScoreFile>): (out: Option<seq<ModelLine>>)
    ensures out.None? <==> exists k :: 0 <= k < |files| && Crashes(files[k])
    ensures out.Some? ==> forall i :: 0 <= i < |out.value| ==> out.value[i].model in ModelOrder
  {
    CollectedRaisesExactly(files);
    match Collected(files)
    case None => None
    case Some(results) => Some(ReportLines(results))
  }
}
