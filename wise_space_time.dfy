/**
 * wise_space-time.py: the spatio-temporal scorer. One pass over the lines of
 * a score file counts them, raises a flag on the 9.9 sentinel and puts the
 * WiScore of every line into the TIME bucket (two time subcategories) or the
 * SPACE bucket (everything else). Nothing is caught: a line that cannot be
 * decoded or scored raises out of the script. `main` keeps the result of each
 * `_scores.jsonl` file under the third `_`-separated part of its name and
 * reports the models of a fixed list in its order.
 */
module WiseSpaceTime {
  import opened Wrappers
  import opened ScoreLines
  import Text

  /** The score value that marks a failed or missing evaluation. */
  const Sentinel: real := 9.9

  /** Files with fewer lines than this are skipped (the message printed says 400). */
  const MinLines: nat := 300

  /** `calculate_wiscore`: the weighted score, not halved. */
  function Wiscore(c: real, r: real, a: real): (w: real)
    ensures w == (7.0 * c + 2.0 * r + a) / 10.0
    ensures 0.0 <= c <= 2.0 && 0.0 <= r <= 2.0 && 0.0 <= a <= 2.0 ==> 0.0 <= w <= 2.0
  {
    0.7 * c + 0.2 * r + 0.1 * a
  }

  datatype Bucket = Time | Space

  const AllBuckets: set<Bucket> := {Time, Space}

  /** The subcategories that go to the TIME bucket. */
  const TimeSubcategories: seq<string> := ["Longitudinal time", "Horizontal time"]

  /** The bucket of a line by its `Subcategory`: TIME for the two time subcategories, SPACE for any other value. */
  function BucketOf(subcategory: Field<string>): (b: Bucket)
    ensures b == Time <==> subcategory.Present? && subcategory.value in TimeSubcategories
  {
    if subcategory.Present? && subcategory.value in TimeSubcategories then Time else Space
  }

  /**
   * A line on which the loop raises: it is not a decodable object, a score
   * is absent (`KeyError`) or not a number (`TypeError` in
   * `calculate_wiscore`), or `Subcategory` is absent.
   */
  predicate Raises(line: Line) {
    !AllNumeric(line) || line.subcategory.Missing?
  }

  /** The WiScore of a line that does not raise. */
  function LineScore(line: Line): real
    requires AllNumeric(line)
  {
    Wiscore(line.consistency.value, line.realism.value, line.aestheticQuality.value)
  }

  /** The scores the lines put into one bucket, in line order. */
  function Scores(lines: seq<Line>, b: Bucket): (xs: seq<real>)
    ensures |xs| <= |lines|
    decreases |lines|
  {
    if lines == [] then []
    else
      var before := Scores(lines[..|lines| - 1], b);
      var line := lines[|lines| - 1];
      if !Raises(line) && BucketOf(line.subcategory) == b then before + [LineScore(line)] else before
  }

  /** `categories[b].append(w)` on a `defaultdict(list)`. */
  function AddScore(buckets: map<Bucket, seq<real>>, b: Bucket, w: real): map<Bucket, seq<real>> {
    buckets[b := (if b in buckets then buckets[b] else []) + [w]]
  }

  /** The `categories` dictionary after the lines: a key for each bucket that received a score. */
  function Buckets(lines: seq<Line>): map<Bucket, seq<real>> {
    map b | b in AllBuckets && |Scores(lines, b)| > 0 :: Scores(lines, b)
  }

  lemma BucketsStep(lines: seq<Line>, i: nat)
    requires i < |lines| && !Raises(lines[i])
    ensures Buckets(lines[..i + 1]) == AddScore(Buckets(lines[..i]), BucketOf(lines[i].subcategory), LineScore(lines[i]))
  {
    assert lines[..i + 1][..i] == lines[..i];
    assert lines[..i + 1][i] == lines[i];
  }

  /** What `process_jsonl_file` returns. */
  datatype Report = Report(total: map<Bucket, real>, average: map<Bucket, real>)

  /** The two comprehensions at the end of `process_jsonl_file`: the average halves the mean. */
  function ReportOf(buckets: map<Bucket, seq<real>>): (r: Report)
    ensures r.total.Keys == r.average.Keys == buckets.Keys
    ensures forall b :: b in buckets && |buckets[b]| > 0 ==> r.average[b] * ((|buckets[b]| * 2) as real) == r.total[b]
    ensures forall b :: b in buckets && |buckets[b]| == 0 ==> r.total[b] == r.average[b] == 0.0
  {
    Report(map b | b in buckets :: Sum(buckets[b]),
           map b | b in buckets :: if |buckets[b]| > 0 then Sum(buckets[b]) / (|buckets[b]| * 2) as real else 0.0)
  }

  /** The result of `process_jsonl_file` on the lines of a file. */
  function Processed(lines: seq<Line>): FileOutcome<Report> {
    if exists k :: 0 <= k < |lines| && Raises(lines[k]) then Raised
    else if (exists k :: 0 <= k < |lines| && HasScore(lines[k], Sentinel)) || |lines| < MinLines then Skipped
    else Accepted(ReportOf(Buckets(lines)))
  }

  /**
   * `process_jsonl_file`: it raises on the first line that cannot be scored;
   * otherwise it skips the file when any score is 9.9 or there are fewer
   * than 300 lines, and else reports the two buckets.
   */
  method ProcessJsonlFile(lines: seq<Line>) returns (result: FileOutcome<Report>)
    ensures result == Processed(lines)
  {
    var categories: map<Bucket, seq<real>> := map[];
    var totalObjects := 0;
    var has99 := false;
    for i := 0 to |lines|
      invariant totalObjects == i
      invariant has99 <==> exists k :: 0 <= k < i && HasScore(lines[k], Sentinel)
      invariant forall k :: 0 <= k < i ==> !Raises(lines[k])
      invariant categories == Buckets(lines[..i])
    {
      totalObjects := totalObjects + 1;
      var line := lines[i];
      // json.loads, then the three score lookups
      if !line.Object? || line.consistency.Missing? || line.realism.Missing? || line.aestheticQuality.Missing? {
        RaisedAt(lines, i);
        return Raised;
      }
      if HasScore(line, Sentinel) {
        has99 := true;
      }
      // the `Subcategory` lookup, then the arithmetic of calculate_wiscore
      if line.subcategory.Missing? || !AllNumeric(line) {
        RaisedAt(lines, i);
        return Raised;
      }
      var wiscore := Wiscore(line.consistency.value, line.realism.value, line.aestheticQuality.value);
      var bucket := if line.subcategory.Present? && line.subcategory.value in TimeSubcategories then Time else Space;
      BucketsStep(lines, i);
      categories := AddScore(categories, bucket, wiscore);
    }
    assert lines[..|lines|] == lines;
    if has99 || totalObjects < MinLines {
      return Skipped;
    }
    var totalScores := map b | b in categories :: Sum(categories[b]);
    var avgScores := map b | b in categories ::
      if |categories[b]| > 0 then Sum(categories[b]) / (|categories[b]| * 2) as real else 0.0;
    assert Report(totalScores, avgScores) == ReportOf(categories);
    result := Accepted(Report(totalScores, avgScores));
  }

  /** A line that raises makes the whole file raise. */
  lemma RaisedAt(lines: seq<Line>, i: nat)
    requires i < |lines| && Raises(lines[i])
    ensures Processed(lines) == Raised
  {
  }

  /** When no line raises, every line lands in exactly one bucket. */
  lemma {:induction false} EveryLineInOneBucket(lines: seq<Line>)
    requires forall k :: 0 <= k < |lines| ==> !Raises(lines[k])
    ensures |Scores(lines, Time)| + |Scores(lines, Space)| == |lines|
    decreases |lines|
  {
    if lines != [] {
      var init := lines[..|lines| - 1];
      assert forall k :: 0 <= k < |init| ==> init[k] == lines[k];
      EveryLineInOneBucket(init);
    }
  }

  /** A report has been computed from at least 300 lines, each in one of the two buckets. */
  lemma ReportCoversEveryLine(lines: seq<Line>)
    requires Processed(lines).Accepted?
    ensures |Scores(lines, Time)| + |Scores(lines, Space)| == |lines| >= MinLines
    ensures forall b :: b in Processed(lines).report.total <==> |Scores(lines, b)| > 0
    ensures forall b :: b in Processed(lines).report.total ==> Processed(lines).report.total[b] == Sum(Scores(lines, b))
  {
    EveryLineInOneBucket(lines);
    forall b: Bucket ensures b in AllBuckets {
      match b
      case Time =>
      case Space =>
    }
  }

  /** When no line raises, each score collected in a bucket is one line's WiScore, within `[0, 2]` for scores in `[0, 2]`. */
  lemma {:induction false} ScoresInRange(lines: seq<Line>, b: Bucket)
    requires forall k :: 0 <= k < |lines| && AllNumeric(lines[k]) ==> ScoresWithin(lines[k], 0.0, 2.0)
    ensures forall j :: 0 <= j < |Scores(lines, b)| ==> 0.0 <= Scores(lines, b)[j] <= 2.0
    decreases |lines|
  {
    if lines != [] {
      var init := lines[..|lines| - 1];
      assert forall k :: 0 <= k < |init| ==> init[k] == lines[k];
      ScoresInRange(init, b);
    }
  }

  /** With scores in `[0, 2]` every reported average lies in `[0, 1]`. */
  lemma AveragesInUnitInterval(lines: seq<Line>)
    requires Processed(lines).Accepted?
    requires forall k :: 0 <= k < |lines| && AllNumeric(lines[k]) ==> ScoresWithin(lines[k], 0.0, 2.0)
    ensures forall b :: b in Processed(lines).report.average ==> 0.0 <= Processed(lines).report.average[b] <= 1.0
  {
    var buckets := Buckets(lines);
    var average := ReportOf(buckets).average;
    forall b | b in average
      ensures 0.0 <= average[b] <= 1.0
    {
      var xs := buckets[b];
      assert xs == Scores(lines, b);
      ScoresInRange(lines, b);
      HalfMeanBounds(xs);
    }
  }

  /** A file of the directory listing, with the decoded lines it holds. */
  datatype ScoreFile = ScoreFile(name: string, lines: seq<Line>)

  const ScoresSuffix: string := "_scores.jsonl"

  /** `filename.split('_')[2]`, or `None` where there is no third part and the indexing raises. */
  function ModelNameOf(filename: string): (name: Option<string>)
    ensures name.Some? <==> |Text.Split(filename, '_')| >= 3
    ensures name.Some? ==> name.value == Text.Split(filename, '_')[2]
    ensures name.Some? ==> '_' !in name.value
  {
    var parts := Text.Split(filename, '_');
    if |parts| >= 3 then Some(parts[2]) else None
  }

  /** The model name is the third '_'-free piece of the name, whatever the pieces before it and whatever follows it. */
  lemma ModelNameIsThirdPiece(a: string, b: string, m: string, rest: string)
    requires '_' !in a && '_' !in b && '_' !in m
    ensures ModelNameOf(a + ['_'] + (b + ['_'] + m)) == Some(m)
    ensures ModelNameOf(a + ['_'] + (b + ['_'] + (m + ['_'] + rest))) == Some(m)
  {
    Text.SplitWithoutSeparator(m, '_');
    Text.SplitAfterPart(b, m, '_');
    Text.SplitAfterPart(a, b + ['_'] + m, '_');
    Text.SplitAfterPart(m, rest, '_');
    Text.SplitAfterPart(b, m + ['_'] + rest, '_');
    Text.SplitAfterPart(a, b + ['_'] + (m + ['_'] + rest), '_');
  }

  /** A model name holding '_' is cut at its first '_': `spatio-temporal_reasoning_<a>_<b>_scores.jsonl` is stored under `<a>`. */
  lemma ModelNameWithUnderscore(a: string, b: string)
    requires '_' !in a
    ensures ModelNameOf("spatio-temporal_reasoning_" + a + "_" + b + ScoresSuffix) == Some(a)
  {
    var name := "spatio-temporal_reasoning_" + a + "_" + b + ScoresSuffix;
    assert name == "spatio-temporal" + ['_'] + ("reasoning" + ['_'] + (a + ['_'] + (b + ScoresSuffix)));
    ModelNameIsThirdPiece("spatio-temporal", "reasoning", a, b + ScoresSuffix);
  }

  /** The prefix is not checked: a culture score file `cultural_common_sense_<model>_scores.jsonl` is stored under `sense`. */
  lemma ForeignScoreFileName(model: string)
    ensures Text.EndsWith("cultural_common_sense_" + model + ScoresSuffix, ScoresSuffix)
    ensures ModelNameOf("cultural_common_sense_" + model + ScoresSuffix) == Some("sense")
  {
    var name := "cultural_common_sense_" + model + ScoresSuffix;
    assert name == "cultural" + ['_'] + ("common" + ['_'] + ("sense" + ['_'] + (model + ScoresSuffix)));
    ModelNameIsThirdPiece("cultural", "common", "sense", model + ScoresSuffix);
    assert name[|name| - |ScoresSuffix|..] == ScoresSuffix;
  }

  /** `main` names the model of `spatio-temporal_reasoning_<model>_scores.jsonl` by `<model>`. */
  lemma ModelNameOfScoreFile(filename: string, model: string)
    requires '_' !in model
    requires filename == "spatio-temporal_reasoning_" + model + ScoresSuffix
    ensures Text.EndsWith(filename, ScoresSuffix)
    ensures ModelNameOf(filename) == Some(model)
  {
    var a, b, c := "spatio-temporal", "reasoning", "scores.jsonl";
    assert filename == a + ['_'] + (b + ['_'] + (model + ['_'] + c));
    assert '_' !in a && '_' !in b && '_' !in c;
    FourParts(a, b, model, c);
    assert filename[|filename| - |ScoresSuffix|..] == ScoresSuffix;
  }

  /** Four '_'-free pieces joined by '_' split back into those pieces. */
  lemma FourParts(a: string, b: string, m: string, c: string)
    requires '_' !in a && '_' !in b && '_' !in m && '_' !in c
    ensures Text.Split(a + ['_'] + (b + ['_'] + (m + ['_'] + c)), '_') == [a, b, m, c]
  {
    Text.SplitWithoutSeparator(c, '_');
    Text.SplitAfterPart(m, c, '_');
    Text.SplitAfterPart(b, m + ['_'] + c, '_');
    Text.SplitAfterPart(a, b + ['_'] + (m + ['_'] + c), '_');
  }

  /** The file makes `main` raise: its name has no third part, or processing it raises. */
  predicate Crashes(f: ScoreFile) {
    Text.EndsWith(f.name, ScoresSuffix) && (ModelNameOf(f.name).None? || Processed(f.lines).Raised?)
  }

  /** The file yields a result that `main` stores under `name`. */
  predicate AcceptedAs(f: ScoreFile, name: string) {
    Text.EndsWith(f.name, ScoresSuffix) && ModelNameOf(f.name) == Some(name) && Processed(f.lines).Accepted?
  }

  /** What one file does to `results` in the first loop of `main`. */
  function EffectOf(f: ScoreFile): (e: FileEffect<Report>)
    ensures e.Crash? <==> Crashes(f)
    ensures forall name :: StoresUnder(e, name) <==> AcceptedAs(f, name)
    ensures e.Store? ==> Processed(f.lines) == Accepted(e.report)
  {
    if !Text.EndsWith(f.name, ScoresSuffix) then Ignore
    else match ModelNameOf(f.name)
      case None => Crash
      case Some(name) =>
        match Processed(f.lines)
        case Raised => Crash
        case Skipped => Ignore
        case Accepted(report) => Store(name, report)
  }

  /** The effects of the files of a listing, in listing order. */
  function Effects(files: seq<ScoreFile>): (effects: seq<FileEffect<Report>>)
    ensures |effects| == |files|
    ensures forall k :: 0 <= k < |files| ==> effects[k] == EffectOf(files[k])
  {
    seq(|files|, k requires 0 <= k < |files| => EffectOf(files[k]))
  }

  /** The `results` dictionary after the files in listing order, or `None` if `main` raised. */
  function Collected(files: seq<ScoreFile>): Option<map<string, Report>> {
    Fold(Effects(files))
  }

  /** The effects of a prefix of the listing are a prefix of its effects. */
  lemma EffectsOfPrefix(files: seq<ScoreFile>, i: nat)
    requires i < |files|
    ensures Effects(files[..i + 1]) == Effects(files[..i]) + [EffectOf(files[i])]
    ensures Effects(files)[..i + 1] == Effects(files[..i + 1])
  {
    assert files[..i + 1][..i] == files[..i];
  }

  /** The first loop of `main`. */
  method CollectResults(files: seq<ScoreFile>) returns (results: Option<map<string, Report>>)
    ensures results == Collected(files)
  {
    var found: map<string, Report> := map[];
    for i := 0 to |files|
      invariant Collected(files[..i]) == Some(found)
    {
      EffectsOfPrefix(files, i);
      var filename := files[i].name;
      if Text.EndsWith(filename, ScoresSuffix) {
        var parts := Text.Split(filename, '_');
        if |parts| < 3 {
          CrashIsFinal(files, i);
          return None;
        }
        var modelName := parts[2];
        var scores := ProcessJsonlFile(files[i].lines);
        if scores.Raised? {
          CrashIsFinal(files, i);
          return None;
        }
        if scores.Accepted? {
          found := found[modelName := scores.report];
        }
      }
    }
    assert files[..|files|] == files;
    return Some(found);
  }

  /** Once `main` has raised on a file, later files change nothing. */
  lemma CrashIsFinal(files: seq<ScoreFile>, i: nat)
    requires i < |files| && Collected(files[..i + 1]).None?
    ensures Collected(files).None?
  {
    EffectsOfPrefix(files, i);
    FoldCrashIsFinal(Effects(files), i);
  }

  /** `main` raises exactly when some file makes it raise. */
  lemma CollectedRaisesExactly(files: seq<ScoreFile>)
    ensures Collected(files).None? <==> exists k :: 0 <= k < |files| && Crashes(files[k])
  {
    var effects := Effects(files);
    FoldRaisesExactly(effects);
    if exists k :: 0 <= k < |files| && Crashes(files[k]) {
      var k :| 0 <= k < |files| && Crashes(files[k]);
      assert effects[k].Crash?;
    }
  }

  /** A model has a result exactly when some file was accepted under its name. */
  lemma ResultExactlyForAccepted(files: seq<ScoreFile>, name: string)
    requires Collected(files).Some?
    ensures name in Collected(files).value <==> exists k :: 0 <= k < |files| && AcceptedAs(files[k], name)
  {
    var effects := Effects(files);
    FoldStoredExactly(effects, name);
    if exists k :: 0 <= k < |files| && AcceptedAs(files[k], name) {
      var k :| 0 <= k < |files| && AcceptedAs(files[k], name);
      assert StoresUnder(effects[k], name);
    }
  }

  /** A model's result is that of the last file accepted under its name, in listing order. */
  lemma LastAcceptedFileWins(files: seq<ScoreFile>, name: string)
    requires Collected(files).Some? && name in Collected(files).value
    ensures exists k :: 0 <= k < |files| && AcceptedAs(files[k], name) &&
                        Collected(files).value[name] == Processed(files[k].lines).report &&
                        forall q :: k < q < |files| ==> !AcceptedAs(files[q], name)
  {
    var effects := Effects(files);
    FoldLastStoreWins(effects, name);
    var k :| 0 <= k < |effects| && StoresUnder(effects[k], name) &&
             Fold(effects).value[name] == effects[k].report &&
             forall q :: k < q < |effects| ==> !StoresUnder(effects[q], name);
    assert AcceptedAs(files[k], name);
    forall q | k < q < |files| ensures !AcceptedAs(files[q], name) {
      assert !StoresUnder(effects[q], name);
    }
  }

  /** The list of models `main` reports on, in its order. */
  const ModelOrder: seq<string> := [
    "FLUX.1-dev",
    "FLUX.1-schnell",
    "PixArt-XL-2-1024-MS",
    "playground-v2.5-1024px-aesthetic",
    "stable-diffusion-v1-5",
    "stable-diffusion-2-1",
    "stable-diffusion-xl-base-0.9",
    "stable-diffusion-3-medium-diffusers",
    "stable-diffusion-3.5-medium",
    "stable-diffusion-3.5-large",
    "Emu3-Gen",
    "Janus-1.3B",
    "JanusFlow-1.3B",
    "Janus-Pro-1B",
    "Janus-Pro-7B",
    "Orthus-7B-base",
    "Orthus-7B-instruct",
    "show-o-demo",
    "show-o-demo-512",
    "vila-u-7b-256"
  ]

  /** One block of the printed report. */
  datatype ModelLine =
    | Found(model: string, timeTotal: real, timeAverage: real, spaceTotal: real, spaceAverage: real)
    | NoData(model: string)

  /**
   * The second loop of `main`: one block per listed model in list order,
   * the bucket values of a model with a result (0 for a bucket it lacks),
   * "No valid data found." for any other.
   */
  function ReportLines(results: map<string, Report>): (out: seq<ModelLine>)
    ensures |out| == |ModelOrder|
    ensures forall i :: 0 <= i < |out| ==> out[i].model == ModelOrder[i]
    ensures forall i :: 0 <= i < |out| ==> (out[i].Found? <==> ModelOrder[i] in results)
    ensures forall i :: 0 <= i < |out| && out[i].Found? ==>
              var r := results[ModelOrder[i]];
              && out[i].timeTotal == (if Time in r.total then r.total[Time] else 0.0)
              && out[i].timeAverage == (if Time in r.average then r.average[Time] else 0.0)
              && out[i].spaceTotal == (if Space in r.total then r.total[Space] else 0.0)
              && out[i].spaceAverage == (if Space in r.average then r.average[Space] else 0.0)
  {
    seq(|ModelOrder|, i requires 0 <= i < |ModelOrder| =>
      var model := ModelOrder[i];
      if model in results then
        var r := results[model];
        Found(model, GetOr(r.total, Time, 0.0), GetOr(r.average, Time, 0.0),
              GetOr(r.total, Space, 0.0), GetOr(r.average, Space, 0.0))
      else NoData(model))
  }

  /** What `main` prints, or `None` when it raises before printing. */
  function Main(files: seq<ScoreFile>): (out: Option<seq<ModelLine>>)
    ensures out.None? <==> exists k :: 0 <= k < |files| && Crashes(files[k])
    ensures out.Some? ==> forall i :: 0 <= i < |out.value| ==> out.value[i].model in ModelOrder
  {
    CollectedRaisesExactly(files);
    match Collected(files)
    case None => None
    case Some(results) => Some(ReportLines(results))
  }
}
