/**
 * The evaluation side of gpt_eval.py: loading the prompt set, turning the
 * judge's outcome into an evaluation result, and the loop in `main` that
 * builds the full records and the score records.
 *
 * The judge call itself (image encoding, request building, the network) is an
 * input: a function from the prompt and the image path to either the response
 * text or the message of the exception it raised. Whether an image file exists
 * is an input predicate on paths.
 */
module GptEval {
  import opened Wrappers
  import opened ScoreExtraction
  import Text

  /** The fields of one prompt-file element that the pipeline reads. */
  datatype PromptItem = PromptItem(promptId: int, prompt: string, explanation: string, subcategory: string)

  /** What `evaluate_image` returns. */
  datatype Evaluation = Evaluation(evaluation: string, consistency: real, realism: real, aestheticQuality: real)

  /** One element of the full results file. */
  datatype FullRecord = FullRecord(promptId: int, prompt: string, key: string, imagePath: string, evaluation: string)

  /** One line of the score results file. */
  datatype ScoreRecord = ScoreRecord(promptId: int, subcategory: string, consistency: real, realism: real, aestheticQuality: real)

  /** A Python dictionary from prompt id to prompt, as its (key, value) pairs in insertion order. */
  type PromptTable = seq<(int, PromptItem)>

  predicate HasKey(table: PromptTable, k: int) {
    exists i :: 0 <= i < |table| && table[i].0 == k
  }

  predicate DistinctKeys(table: PromptTable) {
    forall i, j :: 0 <= i < j < |table| ==> table[i].0 != table[j].0
  }

  /** Where the key `k` sits in the table. */
  function KeyIndex(table: PromptTable, k: int): (i: nat)
    requires HasKey(table, k)
    ensures i < |table| && table[i].0 == k
    decreases |table|
  {
    if table[0].0 == k then 0
    else
      assert HasKey(table[1..], k) by {
        var i :| 0 <= i < |table| && table[i].0 == k;
        assert table[1..][i - 1] == table[i];
      }
      1 + KeyIndex(table[1..], k)
  }

  /**
   * `d[k] = v`: a key already present keeps its place and takes the new value,
   * a new key goes last.
   */
  function Insert(table: PromptTable, k: int, v: PromptItem): (r: PromptTable)
    requires DistinctKeys(table)
    ensures DistinctKeys(r) && HasKey(r, k)
    ensures |r| == if HasKey(table, k) then |table| else |table| + 1
    ensures forall i :: 0 <= i < |table| ==> r[i] == if table[i].0 == k then (k, v) else table[i]
    ensures !HasKey(table, k) ==> r[|table|] == (k, v)
  {
    if HasKey(table, k) then
      var i := KeyIndex(table, k);
      var r := table[i := (k, v)];
      assert r[i].0 == k;
      r
    else
      var r := table + [(k, v)];
      assert r[|table|].0 == k;
      r
  }

  /** `load_prompts`: `{item["prompt_id"]: item for item in data}`. */
  function LoadPrompts(data: seq<PromptItem>): (table: PromptTable)
    ensures DistinctKeys(table)
    decreases |data|
  {
    if data == [] then []
    else
      var last := data[|data| - 1];
      Insert(LoadPrompts(data[..|data| - 1]), last.promptId, last)
  }

  predicate HasId(data: seq<PromptItem>, id: int) {
    exists p :: 0 <= p < |data| && data[p].promptId == id
  }

  /** `item` is the last element of `data` with the id `id`. */
  predicate IsLastWithId(data: seq<PromptItem>, id: int, item: PromptItem) {
    exists p :: 0 <= p < |data| && data[p] == item && item.promptId == id &&
                forall q :: p < q < |data| ==> data[q].promptId != id
  }

  /** The table has a key for exactly the ids that occur in the data. */
  lemma {:induction false} LoadPromptsKeys(data: seq<PromptItem>)
    ensures forall id :: HasKey(LoadPrompts(data), id) <==> HasId(data, id)
    decreases |data|
  {
    if data != [] {
      var init, last := data[..|data| - 1], data[|data| - 1];
      LoadPromptsKeys(init);
      forall id ensures HasKey(LoadPrompts(data), id) <==> HasId(data, id) {
        if HasId(init, id) {
          var p :| 0 <= p < |init| && init[p].promptId == id;
          assert data[p] == init[p];
        }
        if HasId(data, id) && id != last.promptId {
          var p :| 0 <= p < |data| && data[p].promptId == id;
          assert init[p] == data[p];
        }
        assert data[|data| - 1] == last;
      }
    }
  }

  /** The id `a` occurs in the data before the id `b` first does. */
  predicate OccursBefore(data: seq<PromptItem>, a: int, b: int) {
    exists p :: 0 <= p < |data| && data[p].promptId == a && forall q :: 0 <= q <= p ==> data[q].promptId != b
  }

  /** The table's keys are in the order in which each id first occurs in the data. */
  lemma {:induction false} LoadPromptsKeyOrder(data: seq<PromptItem>)
    ensures forall i, j :: 0 <= i < j < |LoadPrompts(data)| ==>
              OccursBefore(data, LoadPrompts(data)[i].0, LoadPrompts(data)[j].0)
    decreases |data|
  {
    if data != [] {
      var init, last := data[..|data| - 1], data[|data| - 1];
      LoadPromptsKeyOrder(init);
      LoadPromptsKeys(init);
      var before := LoadPrompts(init);
      var table := LoadPrompts(data);
      forall i, j | 0 <= i < j < |table| ensures OccursBefore(data, table[i].0, table[j].0) {
        assert table[i].0 == before[i].0;
        if j < |before| {
          assert table[j].0 == before[j].0;
          assert OccursBefore(init, before[i].0, before[j].0);
          var p :| 0 <= p < |init| && init[p].promptId == before[i].0 &&
                   forall q :: 0 <= q <= p ==> init[q].promptId != before[j].0;
          assert forall q :: 0 <= q <= p ==> data[q] == init[q];
        } else {
          assert !HasKey(before, last.promptId) && table[j].0 == last.promptId;
          assert HasKey(before, before[i].0);
          var p :| 0 <= p < |init| && init[p].promptId == before[i].0;
          assert !HasId(init, last.promptId);
          assert forall q :: 0 <= q <= p ==> data[q] == init[q];
        }
      }
    }
  }

  /** Under each key the table holds the last item of the data with that id. */
  lemma {:induction false} LoadPromptsKeepsLastItem(data: seq<PromptItem>)
    ensures forall i :: 0 <= i < |LoadPrompts(data)| ==>
              IsLastWithId(data, LoadPrompts(data)[i].0, LoadPrompts(data)[i].1)
    decreases |data|
  {
    if data != [] {
      var init, last := data[..|data| - 1], data[|data| - 1];
      LoadPromptsKeepsLastItem(init);
      var before := LoadPrompts(init);
      var table := LoadPrompts(data);
      forall i | 0 <= i < |table| ensures IsLastWithId(data, table[i].0, table[i].1) {
        var (id, item) := table[i];
        if id == last.promptId {
          assert item == last;
          assert data[|data| - 1] == item;
        } else {
          assert i < |before| && table[i] == before[i];
          assert IsLastWithId(init, id, item);
          var p :| 0 <= p < |init| && init[p] == item && item.promptId == id &&
                   forall q :: p < q < |init| ==> init[q].promptId != id;
          assert data[p] == item;
          assert forall q :: p < q < |data| ==> data[q].promptId != id by {
            assert forall q :: p < q < |init| ==> data[q] == init[q];
          }
        }
      }
    }
  }

  /** The response text, or the message of the exception raised while asking the judge. */
  type JudgeOutcome = Result<string, string>

  /** The success/failure conversion of `evaluate_image`, with `extract_scores` as the source file spells it. */
  function EvaluateOutcome(outcome: JudgeOutcome): (r: Evaluation)
    ensures outcome.Failure? ==> r == Evaluation("Evaluation failed: " + outcome.error, Missing, Missing, Missing)
    ensures outcome.Success? ==>
              && ExtractedAsWritten(outcome.value).Keys == ScoreKeys
              && r == Evaluation(outcome.value, ExtractedAsWritten(outcome.value)["consistency"],
                                 ExtractedAsWritten(outcome.value)["realism"],
                                 ExtractedAsWritten(outcome.value)["aesthetic_quality"])
    ensures ScoreValue(r.consistency) && ScoreValue(r.realism) && ScoreValue(r.aestheticQuality)
  {
    match outcome
    case Success(text) =>
      ExtractedScoresAreMissingOrDigits(SeparatorsAsWritten, text);
      var scores := ExtractedAsWritten(text);
      Evaluation(text, scores["consistency"], scores["realism"], scores["aesthetic_quality"])
    case Failure(message) =>
      Evaluation("Evaluation failed: " + message, 9.9, 9.9, 9.9)
  }

  /**
   * A failed judge call and an answer that names no metric give the same three
   * scores: the score records cannot tell a failure from a miss.
   */
  lemma FailureLooksLikeMiss(message: string, text: string)
    requires forall j: nat, t :: 0 <= t < |MetricNames| ==> !NameAt(text, j, MetricNames[t])
    ensures var failed, missed := EvaluateOutcome(Failure(message)), EvaluateOutcome(Success(text));
            failed.consistency == missed.consistency &&
            failed.realism == missed.realism &&
            failed.aestheticQuality == missed.aestheticQuality
  {
    NoMetricNameAllMissing(SeparatorsAsWritten, text);
  }

  /** An answer in the three-line format the rubric asks for is evaluated to exactly its three digits. */
  lemma RubricAnswerEvaluated(a: char, b: char, c: char)
    requires IsDigit(a) && IsDigit(b) && IsDigit(c)
    ensures var text := AnswerLine(0, a) + "\n" + AnswerLine(1, b) + "\n" + AnswerLine(2, c);
            EvaluateOutcome(Success(text)) == Evaluation(text, DigitValue(a), DigitValue(b), DigitValue(c))
  {
    AnswerInRubricFormat(SeparatorsAsWritten, a, b, c);
  }

  /** `os.path.join(image_dir, f"{prompt_id}.png")`. */
  function ImagePath(imageDir: string, promptId: int): (path: string)
    ensures Text.EndsWith(path, Text.IntToString(promptId) + ".png")
  {
    var name := Text.IntToString(promptId) + ".png";
    assert !Text.StartsWith(name, "/") by {
      assert name[0] != '/';
    }
    Text.PathJoin(imageDir, name)
  }

  function FullRecordOf(promptId: int, item: PromptItem, path: string, result: Evaluation): FullRecord {
    FullRecord(promptId, item.prompt, item.explanation, path, result.evaluation)
  }

  function ScoreRecordOf(promptId: int, item: PromptItem, result: Evaluation): ScoreRecord {
    ScoreRecord(promptId, item.subcategory, result.consistency, result.realism, result.aestheticQuality)
  }

  /** The evaluation of one table entry. */
  function EvaluationOf(entry: (int, PromptItem), imageDir: string, judge: (PromptItem, string) -> JudgeOutcome): Evaluation {
    EvaluateOutcome(judge(entry.1, ImagePath(imageDir, entry.0)))
  }

  predicate HasImage(entry: (int, PromptItem), imageDir: string, imageExists: string -> bool) {
    imageExists(ImagePath(imageDir, entry.0))
  }

  /** The entries of the table whose image exists, in table order. */
  function WithImage(prompts: PromptTable, imageDir: string, imageExists: string -> bool): (kept: PromptTable)
    ensures |kept| <= |prompts|
    ensures forall j :: 0 <= j < |kept| ==> HasImage(kept[j], imageDir, imageExists)
    decreases |prompts|
  {
    if prompts == [] then []
    else
      var before := WithImage(prompts[..|prompts| - 1], imageDir, imageExists);
      var entry := prompts[|prompts| - 1];
      if HasImage(entry, imageDir, imageExists) then before + [entry] else before
  }

  /** The full records `main` collects, one per evaluated entry. */
  function FullRecords(evaluated: PromptTable, imageDir: string, judge: (PromptItem, string) -> JudgeOutcome): (records: seq<FullRecord>)
    ensures |records| == |evaluated|
  {
    seq(|evaluated|, j requires 0 <= j < |evaluated| =>
      FullRecordOf(evaluated[j].0, evaluated[j].1, ImagePath(imageDir, evaluated[j].0), EvaluationOf(evaluated[j], imageDir, judge)))
  }

  /** The score records `main` collects, one per evaluated entry. */
  function ScoreRecords(evaluated: PromptTable, imageDir: string, judge: (PromptItem, string) -> JudgeOutcome): (records: seq<ScoreRecord>)
    ensures |records| == |evaluated|
  {
    seq(|evaluated|, j requires 0 <= j < |evaluated| =>
      ScoreRecordOf(evaluated[j].0, evaluated[j].1, EvaluationOf(evaluated[j], imageDir, judge)))
  }

  lemma FullRecordsAppend(evaluated: PromptTable, entry: (int, PromptItem), imageDir: string, judge: (PromptItem, string) -> JudgeOutcome)
    ensures FullRecords(evaluated + [entry], imageDir, judge) ==
            FullRecords(evaluated, imageDir, judge) + [FullRecordOf(entry.0, entry.1, ImagePath(imageDir, entry.0), EvaluationOf(entry, imageDir, judge))]
  {
    var a, b := FullRecords(evaluated + [entry], imageDir, judge), FullRecords(evaluated, imageDir, judge);
    forall j | 0 <= j < |evaluated| ensures a[j] == b[j] {
      assert (evaluated + [entry])[j] == evaluated[j];
    }
  }

  lemma ScoreRecordsAppend(evaluated: PromptTable, entry: (int, PromptItem), imageDir: string, judge: (PromptItem, string) -> JudgeOutcome)
    ensures ScoreRecords(evaluated + [entry], imageDir, judge) ==
            ScoreRecords(evaluated, imageDir, judge) + [ScoreRecordOf(entry.0, entry.1, EvaluationOf(entry, imageDir, judge))]
  {
    var a, b := ScoreRecords(evaluated + [entry], imageDir, judge), ScoreRecords(evaluated, imageDir, judge);
    forall j | 0 <= j < |evaluated| ensures a[j] == b[j] {
      assert (evaluated + [entry])[j] == evaluated[j];
    }
  }

  /**
   * The loop of `main`: a prompt whose image is missing is skipped; every other
   * prompt is evaluated once and adds one full record and one score record.
   */
  method EvaluatePrompts(prompts: PromptTable, imageDir: string, imageExists: string -> bool,
                         judge: (PromptItem, string) -> JudgeOutcome)
    returns (fullResults: seq<FullRecord>, scoreResults: seq<ScoreRecord>)
    ensures fullResults == FullRecords(WithImage(prompts, imageDir, imageExists), imageDir, judge)
    ensures scoreResults == ScoreRecords(WithImage(prompts, imageDir, imageExists), imageDir, judge)
  {
    fullResults, scoreResults := [], [];
    for i := 0 to |prompts|
      invariant fullResults == FullRecords(WithImage(prompts[..i], imageDir, imageExists), imageDir, judge)
      invariant scoreResults == ScoreRecords(WithImage(prompts[..i], imageDir, imageExists), imageDir, judge)
    {
      assert prompts[..i + 1][..i] == prompts[..i];
      var evaluated := WithImage(prompts[..i], imageDir, imageExists);
      var (promptId, promptData) := prompts[i];
      var imagePath := ImagePath(imageDir, promptId);
      if !imageExists(imagePath) {
        continue;
      }
      var evaluationResult := EvaluateOutcome(judge(promptData, imagePath));
      var fullRecord := FullRecord(promptId, promptData.prompt, promptData.explanation, imagePath,
                                   evaluationResult.evaluation);
      var scoreRecord := ScoreRecord(promptId, promptData.subcategory, evaluationResult.consistency,
                                     evaluationResult.realism, evaluationResult.aestheticQuality);
      FullRecordsAppend(evaluated, prompts[i], imageDir, judge);
      ScoreRecordsAppend(evaluated, prompts[i], imageDir, judge);
      fullResults := fullResults + [fullRecord];
      scoreResults := scoreResults + [scoreRecord];
    }
    assert prompts[..|prompts|] == prompts;
  }

  /** Selecting the entries with an image respects table order: it distributes over concatenation. */
  lemma {:induction false} WithImageFollowsTableOrder(p1: PromptTable, p2: PromptTable, imageDir: string,
                                                      imageExists: string -> bool)
    ensures WithImage(p1 + p2, imageDir, imageExists) ==
            WithImage(p1, imageDir, imageExists) + WithImage(p2, imageDir, imageExists)
    decreases |p2|
  {
    if p2 == [] {
      assert p1 + p2 == p1;
    } else {
      var init := p2[..|p2| - 1];
      assert (p1 + p2)[..|p1 + p2| - 1] == p1 + init;
      assert (p1 + p2)[|p1 + p2| - 1] == p2[|p2| - 1];
      WithImageFollowsTableOrder(p1, init, imageDir, imageExists);
    }
  }

  predicate HasEntryWithImage(prompts: PromptTable, id: int, imageDir: string, imageExists: string -> bool) {
    exists k :: 0 <= k < |prompts| && prompts[k].0 == id && HasImage(prompts[k], imageDir, imageExists)
  }

  /** An entry with an image is evaluated. */
  lemma {:induction false} EntryWithImageIsEvaluated(prompts: PromptTable, k: nat, imageDir: string, imageExists: string -> bool)
    requires k < |prompts| && HasImage(prompts[k], imageDir, imageExists)
    ensures HasKey(WithImage(prompts, imageDir, imageExists), prompts[k].0)
    decreases |prompts|
  {
    var init, last := prompts[..|prompts| - 1], prompts[|prompts| - 1];
    var kept := WithImage(prompts, imageDir, imageExists);
    var before := WithImage(init, imageDir, imageExists);
    WithImageLast(prompts, imageDir, imageExists);
    if k == |prompts| - 1 {
      assert kept == before + [last];
      assert kept[|before|].0 == prompts[k].0;
    } else {
      assert init[k] == prompts[k];
      EntryWithImageIsEvaluated(init, k, imageDir, imageExists);
      var j :| 0 <= j < |before| && before[j].0 == prompts[k].0;
      if HasImage(last, imageDir, imageExists) {
        assert kept[j] == (before + [last])[j] == before[j];
      }
      assert kept[j].0 == prompts[k].0;
    }
  }

  /** One more entry is kept exactly when its image exists. */
  lemma WithImageLast(prompts: PromptTable, imageDir: string, imageExists: string -> bool)
    requires |prompts| > 0
    ensures var last := prompts[|prompts| - 1];
            WithImage(prompts, imageDir, imageExists) ==
            if HasImage(last, imageDir, imageExists) then WithImage(prompts[..|prompts| - 1], imageDir, imageExists) + [last]
            else WithImage(prompts[..|prompts| - 1], imageDir, imageExists)
  {
  }

  /** Every evaluated entry comes from the table and has an image. */
  lemma {:induction false} EvaluatedEntryIsInTable(prompts: PromptTable, j: nat, imageDir: string, imageExists: string -> bool)
    requires j < |WithImage(prompts, imageDir, imageExists)|
    ensures exists k :: 0 <= k < |prompts| && prompts[k] == WithImage(prompts, imageDir, imageExists)[j]
    decreases |prompts|
  {
    var init, last := prompts[..|prompts| - 1], prompts[|prompts| - 1];
    var kept := WithImage(prompts, imageDir, imageExists);
    var before := WithImage(init, imageDir, imageExists);
    WithImageLast(prompts, imageDir, imageExists);
    if j < |before| {
      assert kept[j] == before[j];
      EvaluatedEntryIsInTable(init, j, imageDir, imageExists);
      var k :| 0 <= k < |init| && init[k] == before[j];
      assert prompts[k] == init[k];
    } else {
      assert kept == before + [last];
      assert prompts[|prompts| - 1] == kept[j];
    }
  }

  /** An id is evaluated exactly when the table has an entry for it whose image exists. */
  lemma EvaluatedExactlyWithImage(prompts: PromptTable, imageDir: string, imageExists: string -> bool)
    ensures forall id :: HasKey(WithImage(prompts, imageDir, imageExists), id) <==>
                         HasEntryWithImage(prompts, id, imageDir, imageExists)
  {
    var kept := WithImage(prompts, imageDir, imageExists);
    forall id
      ensures HasKey(kept, id) <==> HasEntryWithImage(prompts, id, imageDir, imageExists)
    {
      if HasEntryWithImage(prompts, id, imageDir, imageExists) {
        var k :| 0 <= k < |prompts| && prompts[k].0 == id && HasImage(prompts[k], imageDir, imageExists);
        EntryWithImageIsEvaluated(prompts, k, imageDir, imageExists);
      }
      if HasKey(kept, id) {
        var j :| 0 <= j < |kept| && kept[j].0 == id;
        EvaluatedEntryIsInTable(prompts, j, imageDir, imageExists);
      }
    }
  }

  /**
   * Every score record and the full record beside it copy the id, the
   * subcategory, the texts and the three scores of the same evaluated entry;
   * so a prompt id has a score record exactly when the table has it and its
   * image exists.
   */
  lemma RecordsCopyTheirPrompt(prompts: PromptTable, imageDir: string,
                               imageExists: string -> bool, judge: (PromptItem, string) -> JudgeOutcome)
    ensures var evaluated := WithImage(prompts, imageDir, imageExists);
            var scores, fulls := ScoreRecords(evaluated, imageDir, judge), FullRecords(evaluated, imageDir, judge);
            && |scores| == |fulls| == |evaluated|
            && (forall j :: 0 <= j < |scores| ==>
                  var result := EvaluationOf(evaluated[j], imageDir, judge);
                  && scores[j] == ScoreRecord(evaluated[j].0, evaluated[j].1.subcategory, result.consistency,
                                              result.realism, result.aestheticQuality)
                  && fulls[j] == FullRecord(evaluated[j].0, evaluated[j].1.prompt, evaluated[j].1.explanation,
                                            ImagePath(imageDir, evaluated[j].0), result.evaluation))
            && (forall id :: (exists j :: 0 <= j < |scores| && scores[j].promptId == id) <==>
                             HasEntryWithImage(prompts, id, imageDir, imageExists))
  {
    EvaluatedExactlyWithImage(prompts, imageDir, imageExists);
    ScoreRecordIds(WithImage(prompts, imageDir, imageExists), imageDir, judge);
  }

  /** The score records carry exactly the ids of the evaluated entries. */
  lemma ScoreRecordIds(evaluated: PromptTable, imageDir: string, judge: (PromptItem, string) -> JudgeOutcome)
    ensures var scores := ScoreRecords(evaluated, imageDir, judge);
            forall id :: (exists j :: 0 <= j < |scores| && scores[j].promptId == id) <==> HasKey(evaluated, id)
  {
    var scores := ScoreRecords(evaluated, imageDir, judge);
    forall id ensures (exists j :: 0 <= j < |scores| && scores[j].promptId == id) <==> HasKey(evaluated, id) {
      if HasKey(evaluated, id) {
        var j :| 0 <= j < |evaluated| && evaluated[j].0 == id;
        assert scores[j].promptId == id;
      }
    }
  }
}
