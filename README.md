# WISE scoring pipeline, modelled in Dafny

WISE scores text-to-image models with an image judge. This project models its
scoring pipeline:

- **Evaluation** (`gpt_eval.py`):
  - the tolerant parser `extract_scores`, which reads the three metric scores
    (consistency, realism, aesthetic quality) out of the judge's free-form
    answer, starting every metric at the 9.9 sentinel;
  - the success/failure conversion of `evaluate_image`;
  - `load_prompts`, which keys the prompt set by prompt id;
  - the loop in `main` that builds one full record and one score record for
    every prompt whose image exists.
- **Aggregation**: three scripts that read score files line by line and
  report per-category WiScores.
  - `wise_science.py`: Biology, Physics and Chemistry by prompt-id range; the
    999 sentinel; at least 300 lines; halved WiScore; bad lines skipped.
  - `wise_space-time.py`: TIME and SPACE by subcategory; the 9.9 sentinel; at
    least 300 lines; halving in the average; no error handling.
  - `wise_culture.py`: one flat list; the 9.9 sentinel; at least 400 lines;
    halving in the average; no error handling.
  - For each script the model also covers the model name taken from the file
    name and the report printed for a fixed list of models.

Files:

| file | module | models |
|---|---|---|
| `wrappers.dfy` | `Wrappers` | `Option` and `Result` |
| `text.dfy` | `Text` | the Python string and path operations used: `split`, `endswith`, `in`, `split(p, 1)[1]`, `replace(p, '')`, `os.path.basename`, `os.path.join`, `str(int)` |
| `extract_scores.dfy` | `ScoreExtraction` | `extract_scores` as a left-to-right scanner |
| `gpt_eval.dfy` | `GptEval` | `load_prompts`, `evaluate_image`'s conversion, the record loop of `main` |
| `score_lines.dfy` | `ScoreLines` | a decoded line of a score file; `sum`; `dict.get` |
| `wise_science.dfy` | `WiseScience` | `wise_science.py` |
| `wise_space_time.dfy` | `WiseSpaceTime` | `wise_space-time.py` |
| `wise_culture.dfy` | `WiseCulture` | `wise_culture.py` |
| `pipeline.dfy` | `Pipeline` | how the score records of `gpt_eval.py` read back in the three scorers |

How the model is built:

- **Inputs instead of side effects.** The judge is a function from a prompt
  and an image path to `Result<string, string>`: the response text, or the
  message of the exception raised while asking. Whether an image exists is a
  predicate on paths. A directory listing is a sequence of file names with
  their decoded lines.
- **Lines.** A line of a score file is the result of `json.loads`: `BadJson`,
  `NotObject`, or `Object` with five members.
  - Each member is `Present(value)`, `Mistyped` (present with a value of
    another type) or `Missing`.
  - JSON booleans count as numbers, as they do for `isinstance(v, (int, float))`.
- **Loops stay loops.** The loops of the source are methods with `for` loops.
  Each method is proved equal to a declarative specification function, and the
  lemmas state the source's promises about that function.
  - `ScoreExtraction.ExtractScores`
  - `GptEval.EvaluatePrompts`
  - `process_jsonl_file` of the three scorers
  - the result-collecting loops of the two directory scorers, specified as a
    fold over what each file does to the results dictionary (`ScoreLines.Fold`):
    raise, leave it as it is, or store a report under a model name
- **Raising.** In the space-time and culture scorers an exception escapes the
  script: `FileOutcome.Raised` for a file, `None` for `main`.
- **Dictionaries.** `load_prompts`'s dictionary is a sequence of (id, item)
  pairs in insertion order: an existing key keeps its place and takes the new
  value. Other dictionaries are Dafny `map`s, since nothing reads their order.
- **Numbers.** Scores are `real`, so there is no floating-point rounding.

The extraction pattern is
`\*{0,2}(Consistency|Realism|Aesthetic Quality)\*{0,2}\s*[:<sep>]?\s*(\d)`,
matched with `re.IGNORECASE`. It is modelled twice:

- **Declaratively.** `ScoreExtraction.Parses` says how a piece of text splits
  into the pattern's parts: up to two '*', a metric name in any ASCII case, up
  to two '*', white space, an optional separator, white space, one digit.
  `PatternAt` holds when some such split exists.
- **As a greedy scanner.** `MatchAt` tries the pattern at one position, and
  `FindFrom` scans left to right, resuming at the end of a match and one
  position further after a failed attempt.
- `MatchAtIffPattern` proves that the scanner finds a match at a position
  exactly when the pattern occurs there, with the same captures. The reason is
  that the parts never compete for a character: '*', white space, the
  separators, digits and the initials C, R and A are pairwise distinct.
- `FindFromIsLeftmostFirst` proves that the scan yields the leftmost
  occurrence first, then continues after it, as `re.findall` does.

The separator class in `gpt_eval.py` holds ':' and the three characters
U+00EF, U+00BC and U+0161 (`ï¼š`). Under `re.IGNORECASE` it also
matches their other cases, U+00CF and U+0160. The evaluation
(`GptEval.EvaluateOutcome`) uses this class as written
(`ScoreExtraction.SeparatorsAsWritten`). The class evidently meant, ':' and the
full-width colon, is `ScoreExtraction.Separators`; see "## Findings".

### Behaviour worth knowing

- **One sentinel for two conditions.** `gpt_eval.py` writes 9.9 both for a
  metric the answer did not name (lines 50-54) and for every metric of a
  failed judge call (lines 182-188). A score file cannot tell the two apart
  (`GptEval.FailureLooksLikeMiss`).
- **The science scorer looks for another sentinel.** `wise_science.py` rejects
  a file holding the score 999 (line 25), a value the evaluation never writes.
  A file of failed evaluations is therefore reported, with category averages
  of 9.9 / 2 (`Pipeline.ScienceReportsFailedEvaluations`,
  `Pipeline.ScienceAverageOfFailures`).
- **Bad lines end two of the scripts.** `wise_science.py` skips lines it cannot
  decode and lines with a missing or non-numeric score (lines 30-50).
  `wise_space-time.py` and `wise_culture.py` have no handler: such a line
  raises out of the script, so a malformed line followed by 400 good lines
  yields no culture report at all.
- **Threshold and message disagree.** `wise_space-time.py` gates at 300 lines
  (line 49) while its message says 400 (line 50).
- **Nothing bounds the scores.** The rubric in the judge's prompt asks for
  scores 0-2 (`gpt_eval.py` lines 106, 111 and 116), but extraction accepts any
  single digit 0 to 9 and the scorers use it unchanged: 400 records scored 9,
  9, 9 give a culture average of 4.5 (`Pipeline.NinesReachCultureReport`).
- **The names need not be unique.** The culture scorer takes the fourth
  `_`-part of every file name with at least four parts, and the space-time
  scorer the third, whatever the prefix. A file name in the space-time format
  then yields the model name `scores.jsonl` (`WiseCulture.ForeignScoreFileName`),
  and a model name holding `_` is cut at its first `_`
  (`WiseSpaceTime.ModelNameWithUnderscore`); a later file stored under the
  same name replaces the earlier result (`WiseSpaceTime.LastAcceptedFileWins`).

## Model

| member | source | states |
|---|---|---|
| ScoreExtraction.SpaceRunAppend | gpt_eval.py:47 | two adjacent runs of white space form one run |
| ScoreExtraction.Stars | gpt_eval.py:47 | `\*{0,2}` takes a run of '*' and stops only at two of them, at the end of the text, or before another character |
| ScoreExtraction.Spaces | gpt_eval.py:47 | `\s*` takes a run of white space and stops only at the end of the text or before a character that is not white space |
| ScoreExtraction.NameAtKey | gpt_eval.py:47-57 | a name that occurs in any ASCII case captures a slice whose key is the name's key |
| ScoreExtraction.NameMatchedAt | gpt_eval.py:47 | the alternation picks the first name, in its order, that occurs at the position in any ASCII case, and fails exactly when none does |
| ScoreExtraction.MatchAt | gpt_eval.py:47 | a match ends after its start and inside the text, captures a slice whose key is a dictionary key, and captures one decimal digit |
| ScoreExtraction.MatchTail | gpt_eval.py:47 | the part of the pattern after the name ends inside the text, keeps the captured name, and captures one digit |
| ScoreExtraction.FindFrom | gpt_eval.py:48 | every match `re.findall` yields ends inside the text after the scan's start, names a dictionary key and captures a digit |
| ScoreExtraction.NameStartsWithInitial | gpt_eval.py:47 | an occurring name starts, up to case, with its initial |
| ScoreExtraction.NameAtChoosesMetric | gpt_eval.py:47 | whenever a metric name occurs at a position, the alternation picks exactly that name |
| ScoreExtraction.SpacesUnique | gpt_eval.py:47 | a run of white space followed by a non-space is the run `\s*` takes |
| ScoreExtraction.GreedyParses | gpt_eval.py:47 | every match the scanner finds is an occurrence of the pattern with the same captures |
| ScoreExtraction.GreedyParsesAt | gpt_eval.py:47 | the scanner's choices of stars, name and tail form a split of the text into the pattern's parts |
| ScoreExtraction.GreedyTailParses | gpt_eval.py:47 | the scanner's choices after the name form a split of the rest of the pattern |
| ScoreExtraction.TrailIsGreedy | gpt_eval.py:47 | in any split, the '*' after the name are those the scanner takes |
| ScoreExtraction.TailWithSeparator | gpt_eval.py:47 | a split with a separator is the one the scanner finds |
| ScoreExtraction.TailWithoutSeparator | gpt_eval.py:47 | a split without a separator is the one the scanner finds |
| ScoreExtraction.TailParsesIsGreedy | gpt_eval.py:47 | any split of the rest of the pattern gives the scanner's tail match |
| ScoreExtraction.LeadIsGreedy | gpt_eval.py:47 | in any split, the leading '*' are those the scanner takes |
| ScoreExtraction.MatchAtByParts | gpt_eval.py:47 | once the name is chosen, a match at a position is the tail match after that name |
| ScoreExtraction.ParsesIsGreedy | gpt_eval.py:47 | every occurrence of the pattern at a position is what the scanner finds there, whatever split it takes |
| ScoreExtraction.MatchAtIffPattern | gpt_eval.py:47 | for both separator classes, the scanner matches at a position with given captures exactly when the pattern occurs there with those captures |
| ScoreExtraction.FindFromIsLeftmostFirst | gpt_eval.py:48 | the scan finds nothing exactly when the pattern occurs nowhere from the start on; otherwise its first match is the leftmost occurrence and the rest is the scan from its end |
| ScoreExtraction.KeyOfLower | gpt_eval.py:57 | names equal up to ASCII case normalise to the same key |
| ScoreExtraction.MetricNameKeys | gpt_eval.py:57-58 | the three names normalise to `consistency`, `realism`, `aesthetic_quality`, so the `key in scores` guard always holds |
| ScoreExtraction.ExtractScores | gpt_eval.py:46-61 | for any separator class, the loop returns `ExtractedWith`'s dictionary: exactly the three keys, each holding 9.9 or one digit's value |
| ScoreExtraction.StepChangesOnlyItsKey | gpt_eval.py:56-59 | one match overwrites only the entry its name normalises to, with its digit's value |
| ScoreExtraction.LastMatchWins | gpt_eval.py:56-59 | keys never change; a metric without a match keeps its starting value; a metric's value is the digit of its last match |
| ScoreExtraction.ApplyKeepsScoreValues | gpt_eval.py:50-59 | overwriting with digits keeps every score 9.9 or a whole number 0..9 |
| ScoreExtraction.ExtractedScoresAreMissingOrDigits | gpt_eval.py:46-61 | for every separator class and every text, including the class as written, extraction yields the three keys, each 9.9 or a digit value; nothing bounds it to 0..2 |
| ScoreExtraction.NoMetricNameAllMissing | gpt_eval.py:50-61 | a text naming no metric yields 9.9 for all three |
| ScoreExtraction.NoOccurrenceNoMatchFrom | gpt_eval.py:47-48 | for any separator class, with no occurrence of the pattern from a position on, the scan finds nothing there |
| ScoreExtraction.NoOccurrenceAllMissing | gpt_eval.py:46-61 | for any separator class, a text in which the pattern occurs nowhere yields 9.9 for all three |
| ScoreExtraction.AllMissingIffNoOccurrence | gpt_eval.py:46-61 | all three scores are 9.9 exactly when the pattern occurs nowhere in the text, since every match writes a digit's value |
| ScoreExtraction.NoNameNoMatchFrom | gpt_eval.py:48 | with no metric name from a position on, the scan finds nothing there |
| ScoreExtraction.NoMatchNearEnd | gpt_eval.py:47-48 | no match starts where fewer characters remain than the shortest name has |
| ScoreExtraction.SeparatorClassesKeepMatchingGreedy | gpt_eval.py:47-48 | both the class as written and the intended class are disjoint from '*', white space and digits, so for each the scanner matches exactly where the pattern occurs and finds nothing exactly when it occurs nowhere |
| ScoreExtraction.NotNameAt | gpt_eval.py:47 | a position whose character differs from a name's initial (ignoring case) holds no match of that name |
| ScoreExtraction.SingleRealismScore | gpt_eval.py:47-48 | `Realism` + sep + `1` yields one match exactly when sep is in the class, and none otherwise |
| ScoreExtraction.MatchAtStartOfRealism | gpt_eval.py:47 | at its start, `Realism` + sep + `1` matches exactly when sep is in the class |
| ScoreExtraction.NoMatchAfterStartOfRealism | gpt_eval.py:47-48 | no match of `Realism` + sep + `1` starts after its first character |
| ScoreExtraction.RealismOne | gpt_eval.py:56-59 | one match of `Realism` with digit 1 sets realism to 1.0 |
| ScoreExtraction.FullWidthColonMissedAsWritten | gpt_eval.py:47 | with the class as written, `Realism：1` leaves realism at 9.9; with the intended class it reads 1.0 |
| ScoreExtraction.StraySeparatorAcceptedAsWritten | gpt_eval.py:47 | with the class as written, `Realism¼1` reads 1.0; with the intended class realism stays 9.9 |
| ScoreExtraction.AnswerLineMatches | gpt_eval.py:127-130 | a line `<Metric>: <d>` matches at its start with that metric and digit |
| ScoreExtraction.NoMatchAtLineBreak | gpt_eval.py:127-130 | no match starts at a line break |
| ScoreExtraction.FindFromAfterMatch | gpt_eval.py:48 | a match at the scan's position is the scan's first result |
| ScoreExtraction.FindFromSkips | gpt_eval.py:48 | a position without a match is skipped |
| ScoreExtraction.RubricAnswerMatches | gpt_eval.py:127-130 | the three-line answer the prompt asks for yields exactly three matches: consistency, realism and aesthetic quality with their digits |
| ScoreExtraction.ApplyOnePerMetric | gpt_eval.py:56-59 | one match per metric sets each of the three scores to its digit |
| ScoreExtraction.AnswerInRubricFormat | gpt_eval.py:127-130 | for all digits a, b, c, the answer in the prompt's output format extracts consistency a, realism b and aesthetic quality c |
| GptEval.KeyIndex | gpt_eval.py:72 | finds the place of a key the dictionary holds |
| GptEval.Insert | gpt_eval.py:72 | `d[k] = v` keeps keys distinct; an existing key keeps its place and takes the new value; a new key goes last; nothing else changes |
| GptEval.LoadPrompts | gpt_eval.py:69-72 | the dictionary built from the prompt list has distinct keys |
| GptEval.LoadPromptsKeys | gpt_eval.py:72 | the dictionary has a key for exactly the ids occurring in the list |
| GptEval.LoadPromptsKeepsLastItem | gpt_eval.py:72 | under each id the dictionary holds the last item of the list with that id |
| GptEval.LoadPromptsKeyOrder | gpt_eval.py:69-72 | the keys are in the order of the ids' first occurrences in the list |
| GptEval.EvaluateOutcome | gpt_eval.py:175-188 | a failure gives `"Evaluation failed: " + message` and three 9.9s; a success gives the response text and the scores extracted with the separator class as written; every score is 9.9 or a digit value |
| GptEval.FailureLooksLikeMiss | gpt_eval.py:182-188 | a failed judge call and an answer naming no metric give the same three scores |
| GptEval.RubricAnswerEvaluated | gpt_eval.py:127-130 | an answer in the prompt's three-line output format evaluates to its text and exactly its three digits |
| GptEval.ImagePath | gpt_eval.py:218 | the image path ends in `<prompt_id>.png` |
| GptEval.WithImage | gpt_eval.py:217-222 | the entries evaluated are table entries whose image exists, no more of them than the table has |
| GptEval.FullRecords | gpt_eval.py:227-233 | one full record per evaluated entry |
| GptEval.ScoreRecords | gpt_eval.py:235-241 | one score record per evaluated entry |
| GptEval.FullRecordsAppend | gpt_eval.py:243 | evaluating one more entry appends exactly its full record |
| GptEval.ScoreRecordsAppend | gpt_eval.py:244 | evaluating one more entry appends exactly its score record |
| GptEval.EvaluatePrompts | gpt_eval.py:217-244 | the loop's two lists are the full and score records of the entries with an image, in table order, with equal lengths |
| GptEval.WithImageFollowsTableOrder | gpt_eval.py:217-222 | the selection distributes over concatenated tables, so records follow iteration order |
| GptEval.WithImageLast | gpt_eval.py:220-222 | one more entry is kept exactly when its image exists |
| GptEval.EntryWithImageIsEvaluated | gpt_eval.py:220-222 | an entry whose image exists is evaluated |
| GptEval.EvaluatedEntryIsInTable | gpt_eval.py:220-222 | every evaluated entry is an entry of the table |
| GptEval.EvaluatedExactlyWithImage | gpt_eval.py:220-222 | an id is evaluated exactly when the table has an entry for it whose image exists |
| GptEval.RecordsCopyTheirPrompt | gpt_eval.py:227-244 | records at the same place copy the id, the prompt, the explanation, the subcategory, the image path and the evaluation's text and scores of one entry; an id has a score record exactly when its image exists |
| GptEval.ScoreRecordIds | gpt_eval.py:235-241 | an id has a score record exactly when an entry with that id was evaluated |
| Text.Split | wise_space-time.py:66 | `split` gives at least one part and no part contains the separator |
| Text.SplitJoin | wise_space-time.py:66 | joining the parts of a split with the separator gives the string back |
| Text.SplitAfterPart | wise_space-time.py:66 | a leading piece without the separator comes off as the first part |
| Text.SplitWithoutSeparator | wise_space-time.py:66 | a string without the separator splits into itself |
| Text.SplitAtSeparator | wise_space-time.py:66 | splitting at a separator splits the two sides independently |
| Text.FirstOccurrence | wise_science.py:88 | the place of the first occurrence of a substring |
| Text.RemoveAll | wise_science.py:86 | `replace(p, '')` never lengthens the string |
| Text.RemoveAllKeepsPrefix | wise_science.py:86 | a prefix in which no occurrence starts is kept unchanged |
| Text.Basename | wise_science.py:86 | `basename` is a '/'-free suffix that follows a '/' or is the whole path |
| Text.BasenameOfFileInDirectory | wise_science.py:86 | `basename(dir + "/" + file)` is `file` |
| Text.PathJoin | gpt_eval.py:218 | `os.path.join` with a relative name ends with the name and starts with the directory |
| Text.Decimal | gpt_eval.py:218 | `str(n)` for n ≥ 0: decimal digits, no leading zero, whose value is n |
| Text.IntToString | gpt_eval.py:218 | `str(n)` is non-empty and has no '/' |
| ScoreLines.SumAppend | wise_science.py:64 | `sum` distributes over concatenation |
| ScoreLines.SumBounds | wise_science.py:64 | a sum of values in `[lo, hi]` lies in `[n·lo, n·hi]` |
| ScoreLines.MeanBounds | wise_science.py:65 | a mean of values in `[lo, hi]` lies in `[lo, hi]` |
| ScoreLines.HalfMeanBounds | wise_space-time.py:54 | `sum / (len * 2)` of values in `[0, 2]` lies in `[0, 1]` |
| ScoreLines.SumOfConstant | wise_culture.py:48 | n copies of v sum to n·v |
| ScoreLines.FoldCrashIsFinal | wise_space-time.py:64-70 | once a file has made `main` raise, later files change nothing |
| ScoreLines.FoldRaisesExactly | wise_space-time.py:64-70 | the first loop of `main` raises exactly when some file raises |
| ScoreLines.FoldStoredExactly | wise_space-time.py:69-70 | a model has an entry exactly when some file stored a report under its name |
| ScoreLines.FoldLastStoreWins | wise_space-time.py:69-70 | a model's entry is the report of the last file that stored under its name |
| ScoreLines.GetOr | wise_science.py:95-97 | `d.get(k, default)` |
| WiseScience.Wiscore | wise_science.py:6-7 | the WiScore is (7c + 2r + a) / 20, and lies in [0, 1] for c, r, a in [0, 2] |
| WiseScience.WiscoreMonotone | wise_science.py:6-7 | the WiScore is monotone in each argument |
| WiseScience.Route | wise_science.py:37-44 | 701-800 is Biology, 801-900 Physics, 901-1000 Chemistry, and any other id no category |
| WiseScience.RouteGaps | wise_science.py:36-44 | the default id 0 and ids between or beyond the ranges go to no category |
| WiseScience.PromptIdOf | wise_science.py:36 | a missing id counts as 0; an id that is not a number makes the comparison raise |
| WiseScience.Contribution | wise_science.py:28-47 | a line adds a score only when its three scores are numeric and its id routes to a category; that score is its WiScore |
| WiseScience.Contributions | wise_science.py:28-47 | one category gets no more scores than there are lines |
| WiseScience.BucketsStep | wise_science.py:47 | one more line changes the categories dictionary only by appending its own score to its own category |
| WiseScience.ContributionsStep | wise_science.py:46-47 | one more line appends its WiScore to its own category and to no other |
| WiseScience.LineStep | wise_science.py:28-47 | by the tests the loop makes: a non-object line raises; a line with a missing or non-numeric score is skipped; a numeric line raises exactly when its id is not a number, and otherwise adds its WiScore to the category its id routes to, if any |
| WiseScience.RejectedAt | wise_science.py:52-54 | one line that raises makes the whole file yield `None` |
| WiseScience.ReportOf | wise_science.py:64-70 | total, average and counts have the same keys as the categories dictionary |
| WiseScience.ProcessJsonlFile | wise_science.py:9-71 | every line is counted; a report comes exactly when the file was read, no line raised, no score on any line (even a skipped one) is 999, and there are at least 300 lines |
| WiseScience.ReportContents | wise_science.py:64-70 | a report has an entry for exactly the categories some line reached; its count, total and average are the number, the sum and the mean of their scores |
| WiseScience.BadJsonOnlyCounts | wise_science.py:20-61 | an undecodable line adds no score and keeps an accepted file accepted; it counts towards the 300 lines, so 299 clean lines are rejected but accepted with one more undecodable line |
| WiseScience.CountsAtMostLines | wise_science.py:64-70 | the three counts together are at most the number of lines |
| WiseScience.ContributionsInUnitInterval | wise_science.py:46-47 | with scores in [0, 2] every collected WiScore lies in [0, 1] |
| WiseScience.AveragesInUnitInterval | wise_science.py:65 | with scores in [0, 2] every reported average lies in [0, 1] |
| WiseScience.MainReport | wise_science.py:83-103 | no report when processing gave `None`; otherwise the model name and Biology, Physics, Chemistry in that order, each with the sum, mean and number of its scores, or 0s when no line reached it |
| WiseScience.NoSuffixInsideName | wise_science.py:86 | when `_scores.jsonl` starts nowhere in `_<model>_scores.jsonl` but at its end, it starts nowhere inside `natural_science_<model>` |
| WiseScience.BaseNameOfScoreFile | wise_science.py:86 | the base name of `<dir>/natural_science_<model>_scores.jsonl` is the file name |
| WiseScience.SuffixRemovedFromScoreFile | wise_science.py:86 | for such a model, removing `_scores.jsonl` leaves `natural_science_<model>` |
| WiseScience.SuffixRemovedEntirely | wise_science.py:86 | removing `_scores.jsonl` from itself leaves nothing |
| WiseScience.ModelNameOfScoreFile | wise_science.py:86-88 | for a '/'-free model in which `_scores.jsonl` occurs only at the end, the name printed for `<dir>/natural_science_<model>_scores.jsonl` is `<model>` |
| WiseScience.UnderscoreFreeSuffixOnlyAtEnd | wise_science.py:86 | a model name without '_' that does not start with `scores.jsonl` has `_scores.jsonl` only at the end |
| WiseScience.DoubleSuffixRemoved | wise_science.py:86 | `replace` removes both copies of `_scores.jsonl` from `natural_science_scores.jsonl_scores.jsonl` |
| WiseScience.SuffixRemovedTwice | wise_science.py:86-88 | the model `scores.jsonl` has no '_' but loses `_scores.jsonl` twice, so the name printed for its file is `natural_science` |
| WiseScience.ModelNameWithUnderscore | wise_science.py:86-88 | a model name with '_' such as `a_b` is printed whole |
| WiseSpaceTime.Wiscore | wise_space-time.py:28-29 | the WiScore is (7c + 2r + a) / 10, and lies in [0, 2] for c, r, a in [0, 2] |
| WiseSpaceTime.BucketOf | wise_space-time.py:44-47 | TIME exactly for `Longitudinal time` and `Horizontal time`, SPACE for any other subcategory |
| WiseSpaceTime.Scores | wise_space-time.py:36-47 | a bucket gets no more scores than there are lines |
| WiseSpaceTime.BucketsStep | wise_space-time.py:44-47 | one more line appends its WiScore to its own bucket and changes nothing else |
| WiseSpaceTime.ReportOf | wise_space-time.py:53-59 | total and average have the same keys as the buckets; each average times twice the bucket's count is its total, and an empty bucket has total and average 0 |
| WiseSpaceTime.ProcessJsonlFile | wise_space-time.py:31-59 | raises on any line that is undecodable, lacks a score or the subcategory, or has a non-numeric score; otherwise no report when a score is 9.9 or there are fewer than 300 lines; otherwise sums and halved means of the two buckets |
| WiseSpaceTime.RaisedAt | wise_space-time.py:39-43 | one line that is undecodable, lacks a score or the subcategory, or has a non-numeric score makes the whole file raise |
| WiseSpaceTime.EveryLineInOneBucket | wise_space-time.py:36-47 | when nothing raises, TIME count + SPACE count = lines read |
| WiseSpaceTime.ReportCoversEveryLine | wise_space-time.py:36-59 | a report covers at least 300 lines, each in one bucket; a bucket appears exactly when it has scores, and its total is their sum |
| WiseSpaceTime.ScoresInRange | wise_space-time.py:43 | with scores in [0, 2] every collected WiScore lies in [0, 2] |
| WiseSpaceTime.AveragesInUnitInterval | wise_space-time.py:54 | with scores in [0, 2] every average `total / (2·count)` lies in [0, 1] |
| WiseSpaceTime.ModelNameOf | wise_space-time.py:66 | the model name is the third `_`-part of the file name, and indexing raises when there is none |
| WiseSpaceTime.ModelNameIsThirdPiece | wise_space-time.py:65-66 | for any '_'-free pieces a, b, m, the name `a_b_m` or `a_b_m_<rest>` names `m`, whatever a, b and the rest are |
| WiseSpaceTime.ModelNameWithUnderscore | wise_space-time.py:65-66 | `spatio-temporal_reasoning_<a>_<b>_scores.jsonl` is stored under `<a>` alone |
| WiseSpaceTime.ForeignScoreFileName | wise_space-time.py:65-66 | the prefix is not checked: `cultural_common_sense_<model>_scores.jsonl` passes the filter and is stored under `sense` |
| WiseSpaceTime.ModelNameOfScoreFile | wise_space-time.py:65-66 | `spatio-temporal_reasoning_<model>_scores.jsonl` passes the filter and names `<model>` |
| WiseSpaceTime.FourParts | wise_space-time.py:66 | four `_`-free pieces joined by `_` split back into those pieces |
| WiseSpaceTime.CollectResults | wise_space-time.py:61-70 | the loop over the listing computes `Collected`'s results, or raises |
| WiseSpaceTime.CrashIsFinal | wise_space-time.py:64-70 | once a file raised, later files change nothing |
| WiseSpaceTime.CollectedRaisesExactly | wise_space-time.py:64-70 | `main` raises exactly when some `_scores.jsonl` file has no third part or raises while processed |
| WiseSpaceTime.EffectOf | wise_space-time.py:64-70 | a `_scores.jsonl` file without a third name part, or whose processing raises, makes `main` raise; an accepted file stores its report under its model name; any other file is ignored |
| WiseSpaceTime.Effects | wise_space-time.py:64-70 | one effect per file of the listing, in listing order |
| WiseSpaceTime.EffectsOfPrefix | wise_space-time.py:64-70 | the effects of a longer prefix of the listing add the next file's effect |
| WiseSpaceTime.ResultExactlyForAccepted | wise_space-time.py:64-70 | a model has a result exactly when some file was accepted under its name |
| WiseSpaceTime.LastAcceptedFileWins | wise_space-time.py:64-70 | a model's result is that of the last file accepted under its name |
| WiseSpaceTime.ReportLines | wise_space-time.py:72-78 | one block per listed model, in list order; its bucket values (0 for a missing bucket) exactly when it has a result |
| WiseSpaceTime.Main | wise_space-time.py:61-78 | prints nothing exactly when some file makes it raise; never prints an unlisted model |
| WiseCulture.Wiscore | wise_culture.py:27-28 | the WiScore is (7c + 2r + a) / 10, and lies in [0, 2] for c, r, a in [0, 2] |
| WiseCulture.Scores | wise_culture.py:35-42 | the list has no more scores than there are lines |
| WiseCulture.ReportOf | wise_culture.py:48-54 | average · 2·count = total, and 0, 0 for no scores |
| WiseCulture.ProcessJsonlFile | wise_culture.py:30-54 | raises on any line that is undecodable or lacks or has a non-numeric score; otherwise no report when a score is 9.9 or there are fewer than 400 lines; otherwise the total and the halved mean |
| WiseCulture.OneScorePerLine | wise_culture.py:41-42 | when nothing raises, the list has exactly one WiScore per line, in line order |
| WiseCulture.ReportHasEnoughScores | wise_culture.py:44-49 | a report sums at least 400 scores, and its average is the total over twice the line count |
| WiseCulture.AverageInUnitInterval | wise_culture.py:49 | with scores in [0, 2] the average lies in [0, 1] |
| WiseCulture.FullMarksAverageOne | wise_culture.py:44-49 | 400 or more lines all scored 2, 2, 2 give total 2·n and average exactly 1 |
| WiseCulture.ModelNameOf | wise_culture.py:61-63 | a name with fewer than four `_`-parts is ignored; otherwise the model name is the fourth part |
| WiseCulture.ModelNameIsFourthPiece | wise_culture.py:60-63 | for any '_'-free pieces a, b, c, m, the name `a_b_c_m` or `a_b_c_m_<rest>` names `m`, whatever a, b, c and the rest are |
| WiseCulture.ModelNameWithUnderscore | wise_culture.py:60-63 | `cultural_common_sense_<a>_<b>_scores.jsonl` is stored under `<a>` alone |
| WiseCulture.ForeignScoreFileName | wise_culture.py:60-63 | the prefix is not checked: `spatio-temporal_reasoning_<model>_scores.jsonl` passes the filter and is stored under `scores.jsonl` |
| WiseCulture.ModelNameOfScoreFile | wise_culture.py:61-63 | `cultural_common_sense_<model>_scores.jsonl` passes the filter and names `<model>` |
| WiseCulture.FiveParts | wise_culture.py:61 | five `_`-free pieces joined by `_` split back into those pieces |
| WiseCulture.CollectResults | wise_culture.py:56-67 | the loop over the listing computes `Collected`'s results, or raises |
| WiseCulture.CrashIsFinal | wise_culture.py:59-67 | once a file raised, later files change nothing |
| WiseCulture.CollectedRaisesExactly | wise_culture.py:59-67 | `main` raises exactly when processing some named `_scores.jsonl` file raises |
| WiseCulture.EffectOf | wise_culture.py:59-67 | a named `_scores.jsonl` file whose processing raises makes `main` raise; an accepted file stores its report under its model name; any other file is ignored |
| WiseCulture.Effects | wise_culture.py:59-67 | one effect per file of the listing, in listing order |
| WiseCulture.EffectsOfPrefix | wise_culture.py:59-67 | the effects of a longer prefix of the listing add the next file's effect |
| WiseCulture.ResultExactlyForAccepted | wise_culture.py:59-67 | a model has a result exactly when some file was accepted under its name |
| WiseCulture.LastAcceptedFileWins | wise_culture.py:59-67 | a model's result is that of the last file accepted under its name |
| WiseCulture.ReportLines | wise_culture.py:69-75 | one block per listed model, in list order; its total and average exactly when it has a result |
| WiseCulture.Main | wise_culture.py:56-75 | prints nothing exactly when some file makes it raise; never prints an unlisted model |
| Pipeline.LineOf | gpt_eval.py:235-241 | a score record reads back as an object with numeric scores, its id and its subcategory; it holds 9.9 exactly when one of its scores is 9.9 |
| Pipeline.LinesOf | gpt_eval.py:244 | one line per score record, in order |
| Pipeline.RecordLinesNeverRaise | gpt_eval.py:235-241 | no line of a score results file makes any scorer raise |
| Pipeline.MissingScoreSkipsFile | wise_space-time.py:40-50 | one record with a missing score 9.9 makes the space-time and the culture scorer skip the file |
| Pipeline.ScienceReportsFailedEvaluations | wise_science.py:25-26 | 300 or more records of failed evaluations still get a science report |
| Pipeline.ScienceAverageOfFailures | wise_science.py:65 | in such a report every category average is 9.9 / 2 |
| Pipeline.FailedContributions | wise_science.py:46-47 | lines scored 9.9, 9.9, 9.9 add 9.9 / 2 to their category |
| Pipeline.NinesLines | gpt_eval.py:235-241 | records scored 9, 9, 9 read back as numeric lines without 9.9, each with culture WiScore 9 |
| Pipeline.ConstantReport | wise_culture.py:48-49 | n equal scores v give total n·v and average v / 2 |
| Pipeline.NinesReachCultureReport | wise_culture.py:30-54 | 400 or more records scored 9, 9, 9, digits the extraction accepts beyond the rubric's 0-2, give a culture report with total 9·n and average 4.5 |

## Left out

- The judge call, the API key, image reading and base64 encoding. The judge is an input function; any exception it, encoding, or request building raises is its `Failure` message.
- Which exception text `str(e)` produces: the failure message is the judge input's `Failure` value.
- The rubric text of `build_evaluation_messages`: a constant template. Only its output format is modelled (`ScoreExtraction.AnswerLine`), to show that an answer in that format extracts its three digits.
- Argument parsing and configuration, directory creation, `save_results` and every `print`: I/O. The printed reports are values; the `:.2f` formatting is omitted.
- Reading files line by line, `os.listdir` and `os.path.exists`: these become inputs. The science scorer's file is `NotFound`, `Unreadable` (any exception while reading) or its decoded lines. A read error midway through a file is modelled as `Unreadable`.
- JSON decoding itself: modelled only as its outcome per line. Values that do not fit a double (NaN, infinities, huge numbers), and the precision of floats, are not modelled. Scores and ids are exact reals.
- Float rounding in the WiScores, sums and averages: exact real arithmetic is used.
- Unicode case folding beyond ASCII in `re.IGNORECASE`: characters such as 'ſ' or 'İ' that Python folds onto ASCII letters. Non-ASCII decimal digits matched by `\d` are also left out; only '0'-'9' count.
- Prompt items lacking `Prompt`, `Explanation`, `Subcategory` or `prompt_id`, which raise `KeyError` in `main` or `load_prompts`: the prompt data is typed with those fields present and an integer id.
- The module-level calls `main('spatio-temporal_reasoning')` and `main('/results/cultural_common_sense')` at import: `Main` takes the listing as a parameter.
- The science scorer's `except KeyError` handler: unreachable, since `data.get` never raises `KeyError`; its lines are covered by `Raises` or skipping.
- Warning messages of the science scorer about skipped lines: printing.
- Directory entries that are not regular files but end in `_scores.jsonl`: the listing is a sequence of name and lines pairs.
- WiseScience.Contributions: its own contract states only a length bound; what it collects is stated by `ContributionsStep`, `ContributionsInUnitInterval` and `ReportContents`.
- WiseSpaceTime.Scores: its own contract states only a length bound; what it collects is stated by `BucketsStep`, `EveryLineInOneBucket` and `ScoresInRange`.
- WiseCulture.Scores: its own contract states only a length bound; what it collects is stated by `OneScorePerLine`.

## Findings

| source | as written | input that shows it | evidently intended | confidence | as-written member | corrected member |
|---|---|---|---|---|---|---|
| gpt_eval.py:47 | the optional separator class holds ':' and the three characters U+00EF, U+00BC, U+0161 (with `re.IGNORECASE` also U+00CF and U+0160), the Windows-1252 mis-decoding of the UTF-8 bytes of the full-width colon; `GptEval.EvaluateOutcome` uses this class | `Realism：1` (full-width colon) leaves realism at 9.9; `Realism¼1` reads 1 | the class `[:：]`, the ASCII and the full-width colon | high, not executed | ScoreExtraction.FullWidthColonMissedAsWritten | ScoreExtraction.Extracted |
