/**
 * wise_science.py: the natural-science scorer. One pass over the lines of a
 * score file counts them, raises a flag on the 999 sentinel, skips lines that
 * cannot be scored, and collects the halved WiScore of every line whose
 * prompt id falls into the Biology, Physics or Chemistry range; the file is
 * reported only when it was read, nothing raised, no sentinel was seen and it
 * has at least 300 lines.
 */
module WiseScience {
  import opened Wrappers
  import opened ScoreLines
  import Text

  /** The score value that marks a file as containing an error. */
  const ErrorSentinel: real := 999.0

  /** Files with fewer lines than this are not reported. */
  const MinLines: nat := 300

  /** `calculate_wiscore`: the weighted score, halved. */
  function Wiscore(c: real, r: real, a: real): (w: real)
    ensures w == (7.0 * c + 2.0 * r + a) / 20.0
    ensures 0.0 <= c <= 2.0 && 0.0 <= r <= 2.0 && 0.0 <= a <= 2.0 ==> 0.0 <= w <= 1.0
  {
    (0.7 * c + 0.2 * r + 0.1 * a) / 2.0
  }

  /** The WiScore grows with each of its three arguments. */
  lemma WiscoreMonotone(c: real, r: real, a: real, c': real, r': real, a': real)
    requires c <= c' && r <= r' && a <= a'
    ensures Wiscore(c, r, a) <= Wiscore(c', r', a')
  {
  }

  datatype Category = Biology | Physics | Chemistry

  const AllCategories: set<Category> := {Biology, Physics, Chemistry}

  /** The prompt-id ranges of the three categories; any other id is in none. */
  function Route(id: real): (c: Option<Category>)
    ensures c == Some(Biology) <==> 701.0 <= id <= 800.0
    ensures c == Some(Physics) <==> 801.0 <= id <= 900.0
    ensures c == Some(Chemistry) <==> 901.0 <= id <= 1000.0
    ensures c == None <==> !(701.0 <= id <= 800.0 || 801.0 <= id <= 900.0 || 901.0 <= id <= 1000.0)
  {
    if 701.0 <= id <= 800.0 then Some(Biology)
    else if 801.0 <= id <= 900.0 then Some(Physics)
    else if 901.0 <= id <= 1000.0 then Some(Chemistry)
    else None
  }

  /** Ids between two ranges, and the default id 0 of a line without one, belong to no category. */
  lemma RouteGaps()
    ensures Route(0.0) == None && Route(700.0) == None && Route(800.5) == None && Route(1001.0) == None
    ensures Route(701.0) == Some(Biology) && Route(900.0) == Some(Physics) && Route(1000.0) == Some(Chemistry)
  {
  }

  /** `data.get('prompt_id', 0)`, or `None` when comparing it with a number raises. */
  function PromptIdOf(f: Field<real>): (id: Option<real>)
    ensures f.Present? ==> id == Some(f.value)
    ensures f.Missing? ==> id == Some(0.0)
    ensures f.Mistyped? <==> id.None?
  {
    match f
    case Present(v) => Some(v)
    case Missing => Some(0.0)
    case Mistyped => None
  }

  /**
   * A line that raises outside the two inner handlers: `data.get` on a value
   * that is not an object, or a numeric line whose prompt id cannot be compared.
   */
  predicate Raises(line: Line) {
    line.NotObject? || (AllNumeric(line) && line.promptId.Mistyped?)
  }

  /** The category and score a line adds, if any. */
  function Contribution(line: Line): (m: Option<(Category, real)>)
    ensures m.Some? ==> AllNumeric(line) && line.promptId.Mistyped? == false
    ensures m.Some? ==> m.value.1 == Wiscore(line.consistency.value, line.realism.value, line.aestheticQuality.value)
    ensures m.Some? ==> Route(PromptIdOf(line.promptId).value) == Some(m.value.0)
  {
    if AllNumeric(line) && PromptIdOf(line.promptId).Some? && Route(PromptIdOf(line.promptId).value).Some? then
      Some((Route(PromptIdOf(line.promptId).value).value,
            Wiscore(line.consistency.value, line.realism.value, line.aestheticQuality.value)))
    else None
  }

  /** The scores the lines add to one category, in line order. */
  function Contributions(lines: seq<Line>, c: Category): (xs: seq<real>)
    ensures |xs| <= |lines|
    decreases |lines|
  {
    if lines == [] then []
    else
      var before := Contributions(lines[..|lines| - 1], c);
      var m := Contribution(lines[|lines| - 1]);
      if m.Some? && m.value.0 == c then before + [m.value.1] else before
  }

  /** `categories[c].append(w)` on a `defaultdict(list)`. */
  function AddScore(buckets: map<Category, seq<real>>, c: Category, w: real): map<Category, seq<real>> {
    buckets[c := (if c in buckets then buckets[c] else []) + [w]]
  }

  /** The `categories` dictionary after the lines: a key for each category that received a score. */
  function Buckets(lines: seq<Line>): map<Category, seq<real>> {
    map c | c in AllCategories && |Contributions(lines, c)| > 0 :: Contributions(lines, c)
  }

  /** Reading one more line appends its score to its own category only. */
  lemma ContributionsStep(lines: seq<Line>, i: nat, c: Category)
    requires i < |lines|
    ensures var m := Contribution(lines[i]);
            Contributions(lines[..i + 1], c) ==
              if m.Some? && m.value.0 == c then Contributions(lines[..i], c) + [m.value.1] else Contributions(lines[..i], c)
  {
    assert lines[..i + 1][..i] == lines[..i];
    assert lines[..i + 1][i] == lines[i];
  }

  /** Reading one more line changes the buckets only by its own contribution. */
  lemma BucketsStep(lines: seq<Line>, i: nat)
    requires i < |lines|
    ensures Contribution(lines[i]).None? ==> Buckets(lines[..i + 1]) == Buckets(lines[..i])
    ensures Contribution(lines[i]).Some? ==>
              Buckets(lines[..i + 1]) ==
              AddScore(Buckets(lines[..i]), Contribution(lines[i]).value.0, Contribution(lines[i]).value.1)
  {
    var m := Contribution(lines[i]);
    var before, after := Buckets(lines[..i]), Buckets(lines[..i + 1]);
    var expected := if m.None? then before else AddScore(before, m.value.0, m.value.1);
    forall c ensures (c in after <==> c in expected) && (c in after ==> after[c] == expected[c]) {
      ContributionsStep(lines, i, c);
    }
    assert after == expected;
  }

  /** What `process_jsonl_file` returns. */
  datatype Report = Report(total: map<Category, real>, average: map<Category, real>, counts: map<Category, nat>)

  /** The three comprehensions at the end of `process_jsonl_file`. */
  function ReportOf(buckets: map<Category, seq<real>>): (r: Report)
    ensures r.total.Keys == r.average.Keys == r.counts.Keys == buckets.Keys
  {
    Report(map c | c in buckets :: Sum(buckets[c]),
           map c | c in buckets :: if |buckets[c]| > 0 then Sum(buckets[c]) / |buckets[c]| as real else 0.0,
           map c | c in buckets :: |buckets[c]|)
  }

  /** Opening and reading the file: it is absent, reading it fails, or it yields its lines. */
  datatype FileRead = NotFound | Unreadable | Read(lines: seq<Line>)

  /** No line raises, no line holds the sentinel, and there are enough lines. */
  predicate Accepted(lines: seq<Line>) {
    && (forall k :: 0 <= k < |lines| ==> !Raises(lines[k]) && !HasScore(lines[k], ErrorSentinel))
    && |lines| >= MinLines
  }

  /** The result of `process_jsonl_file` on a file. */
  function Processed(file: FileRead): Option<Report> {
    if file.Read? && Accepted(file.lines) then Some(ReportOf(Buckets(file.lines))) else None
  }

  /**
   * `process_jsonl_file`: the report exactly when the file was read, no line
   * raised, no score is 999 (on any line, also one that is skipped) and there
   * are at least 300 lines, every line counted; otherwise `None`.
   */
  method ProcessJsonlFile(file: FileRead) returns (result: Option<Report>)
    ensures result == Processed(file)
  {
    if !file.Read? {
      return None;
    }
    var lines := file.lines;
    var categories: map<Category, seq<real>> := map[];
    var totalObjects := 0;
    var hasError := false;
    for i := 0 to |lines|
      invariant totalObjects == i
      invariant hasError <==> exists k :: 0 <= k < i && HasScore(lines[k], ErrorSentinel)
      invariant forall k :: 0 <= k < i ==> !Raises(lines[k])
      invariant categories == Buckets(lines[..i])
    {
      LineStep(lines, i);
      totalObjects := totalObjects + 1;
      var line := lines[i];
      // an undecodable line is skipped: it holds no scores
      if line.NotObject? {
        RejectedAt(lines, i);
        return None;
      }
      if HasScore(line, ErrorSentinel) {
        hasError := true;
      }
      // a line with a missing or non-numeric score is skipped
      if AllNumeric(line) {
        var promptId := PromptIdOf(line.promptId);
        if promptId.None? {
          RejectedAt(lines, i);
          return None;
        }
        var category := Route(promptId.value);
        if category.Some? {
          var wiscore := Wiscore(line.consistency.value, line.realism.value, line.aestheticQuality.value);
          categories := AddScore(categories, category.value, wiscore);
        }
      }
    }
    assert lines[..|lines|] == lines;
    if hasError {
      var k :| 0 <= k < |lines| && HasScore(lines[k], ErrorSentinel);
      assert !Accepted(lines);
      return None;
    }
    if totalObjects < MinLines {
      assert !Accepted(lines);
      return None;
    }
    assert Accepted(lines);
    result := Some(ReportOf(categories));
  }

  /** The facts about one line the loop of `process_jsonl_file` relies on, by the tests it makes. */
  lemma LineStep(lines: seq<Line>, i: nat)
    requires i < |lines|
    ensures lines[i].NotObject? ==> Raises(lines[i])
    ensures !lines[i].NotObject? && !AllNumeric(lines[i]) ==>
              !Raises(lines[i]) && Buckets(lines[..i + 1]) == Buckets(lines[..i])
    ensures AllNumeric(lines[i]) ==> (Raises(lines[i]) <==> PromptIdOf(lines[i].promptId).None?)
    ensures AllNumeric(lines[i]) && PromptIdOf(lines[i].promptId).Some? ==>
              var line := lines[i];
              var category := Route(PromptIdOf(line.promptId).value);
              Buckets(lines[..i + 1]) ==
                if category.None? then Buckets(lines[..i])
                else AddScore(Buckets(lines[..i]), category.value,
                              Wiscore(line.consistency.value, line.realism.value, line.aestheticQuality.value))
  {
    BucketsStep(lines, i);
  }

  /** A line that raises makes the whole file yield `None`. */
  lemma RejectedAt(lines: seq<Line>, i: nat)
    requires i < |lines| && Raises(lines[i])
    ensures Processed(Read(lines)).None?
  {
  }

  /**
   * In a report, a category has an entry exactly when some line added a score
   * to it; its total, count and average are the sum, the number and the mean
   * of those scores.
   */
  lemma ReportContents(lines: seq<Line>)
    requires Processed(Read(lines)).Some?
    ensures var r := Processed(Read(lines)).value;
            forall c :: (c in r.counts <==> |Contributions(lines, c)| > 0) &&
                        (c in r.counts ==>
                           && r.counts[c] == |Contributions(lines, c)|
                           && r.total[c] == Sum(Contributions(lines, c))
                           && r.average[c] == r.total[c] / r.counts[c] as real)
  {
    forall c: Category ensures c in AllCategories {
      match c
      case Biology =>
      case Physics =>
      case Chemistry =>
    }
  }

  /**
   * A line that cannot be decoded adds no score but counts towards the 300
   * lines: after 299 good lines it turns a rejected file into a reported one.
   */
  lemma {:induction false} BadJsonOnlyCounts(lines: seq<Line>)
    ensures forall c :: Contributions(lines + [BadJson], c) == Contributions(lines, c)
    ensures Accepted(lines) ==> Accepted(lines + [BadJson])
    ensures |lines| == MinLines - 1 && (forall k :: 0 <= k < |lines| ==> !Raises(lines[k]) && !HasScore(lines[k], ErrorSentinel)) ==>
              Processed(Read(lines)).None? && Processed(Read(lines + [BadJson])).Some?
  {
    assert (lines + [BadJson])[..|lines|] == lines;
    assert forall k :: 0 <= k < |lines| ==> (lines + [BadJson])[k] == lines[k];
  }

  /** No line adds a score to two categories, so the three counts together are at most the number of lines. */
  lemma {:induction false} CountsAtMostLines(lines: seq<Line>)
    ensures |Contributions(lines, Biology)| + |Contributions(lines, Physics)| + |Contributions(lines, Chemistry)| <= |lines|
    decreases |lines|
  {
    if lines != [] {
      CountsAtMostLines(lines[..|lines| - 1]);
    }
  }

  /** When every numeric line has scores in `[0, 2]`, every collected score lies in `[0, 1]`. */
  lemma {:induction false} ContributionsInUnitInterval(lines: seq<Line>, c: Category)
    requires forall k :: 0 <= k < |lines| && AllNumeric(lines[k]) ==> ScoresWithin(lines[k], 0.0, 2.0)
    ensures forall j :: 0 <= j < |Contributions(lines, c)| ==> 0.0 <= Contributions(lines, c)[j] <= 1.0
    decreases |lines|
  {
    if lines != [] {
      var init := lines[..|lines| - 1];
      assert forall k :: 0 <= k < |init| ==> init[k] == lines[k];
      ContributionsInUnitInterval(init, c);
    }
  }

  /** With scores in `[0, 2]` every reported average lies in `[0, 1]`. */
  lemma AveragesInUnitInterval(lines: seq<Line>)
    requires Processed(Read(lines)).Some?
    requires forall k :: 0 <= k < |lines| && AllNumeric(lines[k]) ==> ScoresWithin(lines[k], 0.0, 2.0)
    ensures forall c :: c in Processed(Read(lines)).value.average ==> 0.0 <= Processed(Read(lines)).value.average[c] <= 1.0
  {
    forall c | c in Processed(Read(lines)).value.average
      ensures 0.0 <= Processed(Read(lines)).value.average[c] <= 1.0
    {
      ContributionsInUnitInterval(lines, c);
      MeanBounds(Contributions(lines, c), 0.0, 1.0);
    }
  }

  const ScoresSuffix: string := "_scores.jsonl"
  const SciencePrefix: string := "natural_science_"

  /**
   * The model name of `main`: the file's base name without `_scores.jsonl`,
   * and after the first `natural_science_` when that occurs in it.
   */
  function ModelName(path: string): string {
    var base := Text.RemoveAll(Text.Basename(path), ScoresSuffix);
    if Text.Contains(base, SciencePrefix) then Text.AfterFirst(base, SciencePrefix) else base
  }

  /** The order in which `main` lists the categories. */
  const OrderedCategories: seq<Category> := [Biology, Physics, Chemistry]

  /** One category block of the printed report. */
  datatype CategoryLine = CategoryLine(category: Category, total: real, average: real, count: nat)

  /**
   * `main` after the arguments are parsed: `None` where it prints that no
   * report could be made; otherwise the model name and one block per
   * category in the listed order, with 0 for a category no line reached.
   */
  function MainReport(path: string, file: FileRead): (out: Option<(string, seq<CategoryLine>)>)
    ensures out.Some? <==> Processed(file).Some?
    ensures out.Some? ==> out.value.0 == ModelName(path) && |out.value.1| == |OrderedCategories|
    ensures out.Some? ==>
              forall i :: 0 <= i < |OrderedCategories| ==>
                var c := OrderedCategories[i];
                var xs := Contributions(file.lines, c);
                out.value.1[i] == if |xs| > 0 then CategoryLine(c, Sum(xs), Sum(xs) / |xs| as real, |xs|)
                                  else CategoryLine(c, 0.0, 0.0, 0)
  {
    match Processed(file)
    case None => None
    case Some(results) =>
      Some((ModelName(path),
            seq(|OrderedCategories|, i requires 0 <= i < |OrderedCategories| =>
              var c := OrderedCategories[i];
              CategoryLine(c, GetOr(results.total, c, 0.0), GetOr(results.average, c, 0.0),
                           GetOr(results.counts, c, 0)))))
  }

  /** A string that differs from `p` at some place within both does not start with `p`. */
  lemma MismatchAt(t: string, p: string, j: nat)
    requires j < |p| && j < |t| && t[j] != p[j]
    ensures !Text.StartsWith(t, p)
  {
    if |p| <= |t| {
      assert t[..|p|][j] != p[j];
    }
  }

  /**
   * The only occurrence of `_scores.jsonl` in `_<model>_scores.jsonl` is the
   * suffix itself: none starts before it.
   */
  predicate SuffixOnlyAtEnd(model: string) {
    forall k :: 0 <= k <= |model| ==> !Text.StartsWith(("_" + model + ScoresSuffix)[k..], ScoresSuffix)
  }

  /** No occurrence of `_scores.jsonl` starts inside `natural_science_<model>`. */
  lemma NoSuffixInsideName(model: string, k: nat)
    requires SuffixOnlyAtEnd(model)
    requires k < |SciencePrefix + model|
    ensures !Text.StartsWith((SciencePrefix + model + ScoresSuffix)[k..], ScoresSuffix)
  {
    var s := SciencePrefix + model + ScoresSuffix;
    assert |SciencePrefix| == 16 && |ScoresSuffix| == 13;
    if k >= 15 {
      var t := "_" + model + ScoresSuffix;
      assert s == SciencePrefix[..15] + t;
      assert s[k..] == t[k - 15..];
    } else if k == 7 {
      assert s[k + 3] == SciencePrefix[10];
      MismatchAt(s[k..], ScoresSuffix, 3);
    } else {
      assert s[k] == SciencePrefix[k];
      MismatchAt(s[k..], ScoresSuffix, 0);
    }
  }

  lemma BaseNameOfScoreFile(dir: string, model: string)
    requires '/' !in model
    ensures Text.Basename(dir + "/" + SciencePrefix + model + ScoresSuffix) == SciencePrefix + model + ScoresSuffix
  {
    var file := SciencePrefix + model + ScoresSuffix;
    assert '/' !in file by {
      assert forall k :: 0 <= k < |SciencePrefix| ==> SciencePrefix[k] != '/';
      assert forall k :: 0 <= k < |ScoresSuffix| ==> ScoresSuffix[k] != '/';
      forall k | 0 <= k < |file| ensures file[k] != '/' {
        if k < |SciencePrefix| {
          assert file[k] == SciencePrefix[k];
        } else if k < |SciencePrefix| + |model| {
          assert file[k] == model[k - |SciencePrefix|];
        } else {
          assert file[k] == ScoresSuffix[k - |SciencePrefix| - |model|];
        }
      }
    }
    assert dir + "/" + SciencePrefix + model + ScoresSuffix == dir + "/" + file;
    Text.BasenameOfFileInDirectory(dir, file);
  }

  lemma SuffixRemovedFromScoreFile(model: string)
    requires SuffixOnlyAtEnd(model)
    ensures Text.RemoveAll(SciencePrefix + model + ScoresSuffix, ScoresSuffix) == SciencePrefix + model
  {
    var x := SciencePrefix + model;
    forall k | 0 <= k < |x| ensures !Text.StartsWith((x + ScoresSuffix)[k..], ScoresSuffix) {
      NoSuffixInsideName(model, k);
    }
    Text.RemoveAllKeepsPrefix(x, ScoresSuffix, ScoresSuffix);
    SuffixRemovedEntirely();
    assert x + [] == x;
  }

  /** Removing `_scores.jsonl` from itself leaves nothing. */
  lemma SuffixRemovedEntirely()
    ensures Text.RemoveAll(ScoresSuffix, ScoresSuffix) == []
  {
    assert Text.StartsWith(ScoresSuffix, ScoresSuffix);
    assert ScoresSuffix[|ScoresSuffix|..] == [];
  }

  /** `main` recovers the model name from `<dir>/natural_science_<model>_scores.jsonl`. */
  lemma ModelNameOfScoreFile(dir: string, model: string)
    requires '/' !in model && SuffixOnlyAtEnd(model)
    ensures ModelName(dir + "/" + SciencePrefix + model + ScoresSuffix) == model
  {
    BaseNameOfScoreFile(dir, model);
    SuffixRemovedFromScoreFile(model);
    var x := SciencePrefix + model;
    assert Text.StartsWith(x, SciencePrefix);
    assert x[0..] == x;
    assert Text.Contains(x, SciencePrefix);
    assert Text.FirstOccurrence(x, SciencePrefix) == 0;
    assert x[|SciencePrefix|..] == model;
  }

  /** A model name without '_' that does not start with `scores.jsonl` meets `SuffixOnlyAtEnd`. */
  lemma UnderscoreFreeSuffixOnlyAtEnd(model: string)
    requires '_' !in model && !Text.StartsWith(model, "scores.jsonl")
    ensures SuffixOnlyAtEnd(model)
  {
    var t := "_" + model + ScoresSuffix;
    forall k | 0 <= k <= |model| ensures !Text.StartsWith(t[k..], ScoresSuffix) {
      if k > 0 {
        assert t[k] == model[k - 1];
        MismatchAt(t[k..], ScoresSuffix, 0);
      } else if |model| >= 12 {
        assert model[..12] != "scores.jsonl";
        var j :| 0 <= j < 12 && model[..12][j] != "scores.jsonl"[j];
        assert t[j + 1] == model[j];
        assert ScoresSuffix[j + 1] == "scores.jsonl"[j];
        MismatchAt(t, ScoresSuffix, j + 1);
      } else {
        assert t[|model| + 1] == ScoresSuffix[0];
        MismatchAt(t, ScoresSuffix, |model| + 1);
      }
    }
  }

  /**
   * Being free of '_' is not enough: for the model `scores.jsonl`, `replace`
   * removes `_scores.jsonl` twice, `natural_science_` no longer occurs, and the
   * name printed is `natural_science`.
   */
  lemma SuffixRemovedTwice(dir: string)
    ensures '_' !in "scores.jsonl" && !SuffixOnlyAtEnd("scores.jsonl")
    ensures ModelName(dir + "/" + SciencePrefix + "scores.jsonl" + ScoresSuffix) == "natural_science"
  {
    assert Text.StartsWith(("_" + "scores.jsonl" + ScoresSuffix)[0..], ScoresSuffix);
    BaseNameOfScoreFile(dir, "scores.jsonl");
    assert SciencePrefix + "scores.jsonl" + ScoresSuffix == "natural_science" + (ScoresSuffix + ScoresSuffix);
    DoubleSuffixRemoved();
    assert !Text.Contains("natural_science", SciencePrefix);
  }

  /** `natural_science` followed by the suffix twice loses both copies. */
  lemma DoubleSuffixRemoved()
    ensures Text.RemoveAll("natural_science" + (ScoresSuffix + ScoresSuffix), ScoresSuffix) == "natural_science"
  {
    var head, tail := "natural_science", ScoresSuffix + ScoresSuffix;
    forall k | 0 <= k < |head| ensures !Text.StartsWith((head + tail)[k..], ScoresSuffix) {
      if k == 7 {
        MismatchAt((head + tail)[k..], ScoresSuffix, 3);
      } else {
        MismatchAt((head + tail)[k..], ScoresSuffix, 0);
      }
    }
    Text.RemoveAllKeepsPrefix(head, tail, ScoresSuffix);
    assert Text.StartsWith(tail, ScoresSuffix);
    assert tail[|ScoresSuffix|..] == ScoresSuffix;
    SuffixRemovedEntirely();
  }

  /** A model name may hold '_': `natural_science_a_b_scores.jsonl` names the model `a_b`. */
  lemma ModelNameWithUnderscore(dir: string)
    ensures ModelName(dir + "/" + SciencePrefix + "a_b" + ScoresSuffix) == "a_b"
  {
    var t := "_" + "a_b" + ScoresSuffix;
    MismatchAt(t, ScoresSuffix, 1);
    MismatchAt(t[1..], ScoresSuffix, 0);
    MismatchAt(t[2..], ScoresSuffix, 1);
    MismatchAt(t[3..], ScoresSuffix, 0);
    assert SuffixOnlyAtEnd("a_b");
    ModelNameOfScoreFile(dir, "a_b");
  }
}
