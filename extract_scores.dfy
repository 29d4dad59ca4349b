/**
 * `extract_scores` of gpt_eval.py: the tolerant parser that reads the three
 * metric scores out of the judge's free-form answer.
 *
 * The pattern `\*{0,2}(Consistency|Realism|Aesthetic Quality)\*{0,2}\s*[seps]?\s*(\d)`
 * is matched case-insensitively and non-overlapping from left to right, as
 * `re.findall` does. `Parses` states the pattern declaratively; the scanner
 * `MatchAt`/`FindFrom` takes every part greedily, and `MatchAtIffPattern` and
 * `FindFromIsLeftmostFirst` prove that it finds exactly the matches `re.findall`
 * finds. Greedy is enough because the parts never compete for a character:
 * '*', white space, separators, digits and the initials C, R, A are pairwise
 * distinct.
 */
module ScoreExtraction {
  import opened Wrappers

  /** The value each metric starts from, kept when the text has no score for it. */
  const Missing: real := 9.9

  /** The keys of the dictionary `extract_scores` returns. */
  const ScoreKeys: set<string> := {"consistency", "realism", "aesthetic_quality"}

  /** The metric names as the pattern spells them. */
  const MetricNames: seq<string> := ["Consistency", "Realism", "Aesthetic Quality"]

  const Initial: map<string, real> :=
    map["consistency" := Missing, "realism" := Missing, "aesthetic_quality" := Missing]

  /**
   * The optional separator class as the source file spells it: its bytes are the
   * UTF-8 encoding of ':' and of the three characters U+00EF, U+00BC and U+0161,
   * which is what the full-width colon U+FF1A becomes when its UTF-8 bytes are
   * decoded as Windows-1252 and re-encoded. Under `re.IGNORECASE` the class also
   * matches the other case of U+00EF and U+0161: U+00CF and U+0160.
   */
  const SeparatorsAsWritten: set<char> :=
    {':', '\U{00EF}', '\U{00CF}', '\U{00BC}', '\U{0161}', '\U{0160}'}

  /** The separator class as intended: the ASCII colon and the full-width colon. */
  const Separators: set<char> := {':', '\U{FF1A}'}

  /** Python's `\s` in a text pattern: the characters `str.isspace` accepts. */
  predicate IsSpace(c: char) {
    || c == ' '
    || '\t' <= c <= '\r'
    || '\U{1C}' <= c <= '\U{1F}'
    || c == '\U{85}' || c == '\U{A0}' || c == '\U{1680}'
    || '\U{2000}' <= c <= '\U{200A}'
    || c == '\U{2028}' || c == '\U{2029}' || c == '\U{202F}' || c == '\U{205F}' || c == '\U{3000}'
  }

  predicate IsDigit(c: char) {
    '0' <= c <= '9'
  }

  /** A separator class the pattern can use: no separator is a space, a digit or '*'. */
  predicate SeparatorClass(seps: set<char>) {
    forall c <- seps :: !IsSpace(c) && !IsDigit(c) && c != '*'
  }

  function Lower(c: char): char {
    if 'A' <= c <= 'Z' then (c as int + 32) as char else c
  }

  /** The dictionary key of a matched name: `key.lower().replace(" ", "_")`. */
  function Key(name: string): string {
    seq(|name|, k requires 0 <= k < |name| => if Lower(name[k]) == ' ' then '_' else Lower(name[k]))
  }

  function DigitValue(c: char): real {
    (c as int - '0' as int) as real
  }

  /** One element of what `re.findall` returns: the captured name, the captured digit, and where the match ends. */
  datatype ScoreMatch = ScoreMatch(name: string, digit: char, end: nat)

  /** `text[i..i + n]` is a run of at most two '*'. */
  predicate StarRun(text: string, i: nat, n: nat) {
    n <= 2 && i + n <= |text| && (n >= 1 ==> text[i] == '*') && (n == 2 ==> text[i + 1] == '*')
  }

  /** `text[i..i + n]` consists of white space only. */
  predicate SpaceRun(text: string, i: nat, n: nat)
    decreases n
  {
    i + n <= |text| && (n == 0 || (IsSpace(text[i]) && SpaceRun(text, i + 1, n - 1)))
  }

  /** Two adjacent runs of white space make one. */
  lemma {:induction false} SpaceRunAppend(text: string, i: nat, x: nat, y: nat)
    requires SpaceRun(text, i, x) && SpaceRun(text, i + x, y)
    ensures SpaceRun(text, i, x + y)
    decreases x
  {
    if x > 0 {
      SpaceRunAppend(text, i + 1, x - 1, y);
    }
  }

  /** `\*{0,2}` at position `i`, taken greedily: the run of '*' there, cut at two. */
  function Stars(text: string, i: nat): (n: nat)
    requires i <= |text|
    ensures StarRun(text, i, n)
    ensures n == 2 || i + n == |text| || text[i + n] != '*'
  {
    if i < |text| && text[i] == '*' then
      if i + 1 < |text| && text[i + 1] == '*' then 2 else 1
    else 0
  }

  /** `\s*` at position `i`, taken greedily: the whole run of white space there. */
  function Spaces(text: string, i: nat): (n: nat)
    requires i <= |text|
    ensures SpaceRun(text, i, n)
    ensures i + n == |text| || !IsSpace(text[i + n])
    decreases |text| - i
  {
    if i < |text| && IsSpace(text[i]) then 1 + Spaces(text, i + 1) else 0
  }

  /** `name` occurs at position `j`, ignoring ASCII case. */
  predicate NameAt(text: string, j: nat, name: string) {
    j + |name| <= |text| && forall k :: 0 <= k < |name| ==> Lower(text[j + k]) == Lower(name[k])
  }

  lemma KeyOfLower(x: string, y: string)
    requires |x| == |y| && forall k :: 0 <= k < |x| ==> Lower(x[k]) == Lower(y[k])
    ensures Key(x) == Key(y)
  {
  }

  lemma MetricNameKeys()
    ensures Key(MetricNames[0]) == "consistency"
    ensures Key(MetricNames[1]) == "realism"
    ensures Key(MetricNames[2]) == "aesthetic_quality"
  {
  }

  /** A name found at `j` has the same key as the text it covers. */
  lemma NameAtKey(text: string, j: nat, name: string)
    requires NameAt(text, j, name)
    ensures Key(text[j..j + |name|]) == Key(name)
  {
    var x := text[j..j + |name|];
    assert forall k :: 0 <= k < |x| ==> x[k] == text[j + k];
    KeyOfLower(x, name);
  }

  /**
   * The alternation `(Consistency|Realism|Aesthetic Quality)` at position `j`:
   * the index of the first name, in the pattern's order, that occurs there.
   */
  function NameMatchedAt(text: string, j: nat): (r: Option<nat>)
    ensures r.Some? ==> r.value < |MetricNames| && NameAt(text, j, MetricNames[r.value])
    ensures r.Some? ==> forall t :: 0 <= t < r.value ==> !NameAt(text, j, MetricNames[t])
    ensures r.None? <==> forall t :: 0 <= t < |MetricNames| ==> !NameAt(text, j, MetricNames[t])
  {
    if NameAt(text, j, MetricNames[0]) then Some(0)
    else if NameAt(text, j, MetricNames[1]) then Some(1)
    else if NameAt(text, j, MetricNames[2]) then Some(2)
    else None
  }

  /** One attempt of the pattern at position `i`; the captured name is the text the metric name covers. */
  function MatchAt(seps: set<char>, text: string, i: nat): (r: Option<ScoreMatch>)
    requires i <= |text|
    ensures r.Some? ==> i < r.value.end <= |text|
    ensures r.Some? ==> Key(r.value.name) in ScoreKeys && IsDigit(r.value.digit)
  {
    var j0 := i + Stars(text, i);
    match NameMatchedAt(text, j0)
    case None => None
    case Some(t) =>
      var j1 := j0 + |MetricNames[t]|;
      NameAtKey(text, j0, MetricNames[t]);
      MetricNameKeys();
      MatchTail(seps, text, j1, text[j0..j1])
  }

  /** The rest of the pattern, `\*{0,2}\s*[seps]?\s*(\d)`, after the name `name` that ends at `j1`. */
  function MatchTail(seps: set<char>, text: string, j1: nat, name: string): (r: Option<ScoreMatch>)
    requires j1 <= |text|
    ensures r.Some? ==> j1 < r.value.end <= |text| && r.value.name == name && IsDigit(r.value.digit)
  {
    var j2 := j1 + Stars(text, j1);
    var j3 := j2 + Spaces(text, j2);
    var j4 := if j3 < |text| && text[j3] in seps then j3 + 1 else j3;
    var j5 := j4 + Spaces(text, j4);
    if j5 < |text| && IsDigit(text[j5]) then Some(ScoreMatch(name, text[j5], j5 + 1)) else None
  }

  /** `re.findall` from position `i` on: after a match the scan resumes where it ended, otherwise one further on. */
  function FindFrom(seps: set<char>, text: string, i: nat): (ms: seq<ScoreMatch>)
    requires i <= |text|
    ensures forall k :: 0 <= k < |ms| ==> Key(ms[k].name) in ScoreKeys && IsDigit(ms[k].digit)
    ensures forall k :: 0 <= k < |ms| ==> i < ms[k].end <= |text|
    decreases |text| - i
  {
    if i == |text| then []
    else
      match MatchAt(seps, text, i)
      case Some(m) => [m] + FindFrom(seps, text, m.end)
      case None => FindFrom(seps, text, i + 1)
  }

  function FindAll(seps: set<char>, text: string): seq<ScoreMatch> {
    FindFrom(seps, text, 0)
  }

  /**
   * How one occurrence of the pattern at `i` splits into its parts: the number
   * of leading '*', which metric name, and how the rest splits.
   */
  datatype Parse = Parse(lead: nat, metric: nat, tail: TailParse)

  /**
   * How the rest of an occurrence splits after the name: the number of trailing
   * '*', the white space before the optional separator, whether the separator is
   * there, and the white space after it.
   */
  datatype TailParse = TailParse(trail: nat, before: nat, sep: bool, after: nat)

  /** The pattern, read declaratively: `p` splits the text from `i` on into its parts, and `m` is what it captures. */
  predicate Parses(seps: set<char>, text: string, i: nat, p: Parse, m: ScoreMatch) {
    StarRun(text, i, p.lead) &&
    p.metric < |MetricNames| && NameAt(text, i + p.lead, MetricNames[p.metric]) &&
    var j1 := i + p.lead + |MetricNames[p.metric]|;
    TailParses(seps, text, j1, p.tail, text[i + p.lead..j1], m)
  }

  /** The part of `Parses` after the name `name`, which ends at `j1`. */
  predicate TailParses(seps: set<char>, text: string, j1: nat, p: TailParse, name: string, m: ScoreMatch) {
    StarRun(text, j1, p.trail) &&
    SpaceRun(text, j1 + p.trail, p.before) &&
    var j3 := j1 + p.trail + p.before;
    (p.sep ==> j3 < |text| && text[j3] in seps) &&
    var j4 := if p.sep then j3 + 1 else j3;
    SpaceRun(text, j4, p.after) &&
    var j5 := j4 + p.after;
    j5 < |text| && IsDigit(text[j5]) && m == ScoreMatch(name, text[j5], j5 + 1)
  }

  /** The pattern matches at `i` with captures `m`, in some way. */
  ghost predicate PatternAt(seps: set<char>, text: string, i: nat, m: ScoreMatch) {
    exists p :: Parses(seps, text, i, p, m)
  }

  /** No occurrence of the pattern starts in `[i, j)`. */
  ghost predicate NoPatternBetween(seps: set<char>, text: string, i: nat, j: nat) {
    forall k: nat, m :: i <= k < j ==> !PatternAt(seps, text, k, m)
  }

  lemma NameStartsWithInitial(text: string, j: nat, t: nat)
    requires t < |MetricNames| && NameAt(text, j, MetricNames[t])
    ensures j < |text| && Lower(text[j]) == Lower(MetricNames[t][0])
  {
    assert Lower(text[j + 0]) == Lower(MetricNames[t][0]);
  }

  /** The three names start with different letters, so at most one of them occurs at a position. */
  lemma NameAtChoosesMetric(text: string, j: nat, t: nat)
    requires t < |MetricNames| && NameAt(text, j, MetricNames[t])
    ensures NameMatchedAt(text, j) == Some(t)
  {
    NameStartsWithInitial(text, j, t);
    if t > 0 {
      NotNameAt(text, j, MetricNames[0]);
    }
    if t > 1 {
      NotNameAt(text, j, MetricNames[1]);
    }
  }

  /** A run of white space that ends before a non-space is the greedy `\s*`. */
  lemma {:induction false} SpacesUnique(text: string, a: nat, x: nat)
    requires SpaceRun(text, a, x) && a + x < |text| && !IsSpace(text[a + x])
    ensures Spaces(text, a) == x
    decreases x
  {
    if x > 0 {
      SpacesUnique(text, a + 1, x - 1);
    }
  }

  /** What the greedy scanner matches is an occurrence of the pattern. */
  lemma GreedyParses(seps: set<char>, text: string, i: nat)
    requires i <= |text| && MatchAt(seps, text, i).Some?
    ensures PatternAt(seps, text, i, MatchAt(seps, text, i).value)
  {
    var j0 := i + Stars(text, i);
    var t := NameMatchedAt(text, j0).value;
    MatchAtByParts(seps, text, i, t);
    GreedyParsesAt(seps, text, i, t, MatchAt(seps, text, i).value);
  }

  lemma GreedyParsesAt(seps: set<char>, text: string, i: nat, t: nat, m: ScoreMatch)
    requires i <= |text| && NameMatchedAt(text, i + Stars(text, i)) == Some(t)
    requires var j0 := i + Stars(text, i);
             MatchTail(seps, text, j0 + |MetricNames[t]|, text[j0..j0 + |MetricNames[t]|]) == Some(m)
    ensures Parses(seps, text, i, Parse(Stars(text, i), t, GreedyTail(seps, text, i + Stars(text, i) + |MetricNames[t]|)), m)
  {
    var j0 := i + Stars(text, i);
    var j1 := j0 + |MetricNames[t]|;
    GreedyTailParses(seps, text, j1, text[j0..j1]);
  }

  /** The split of the rest of the pattern that `MatchTail` takes. */
  function GreedyTail(seps: set<char>, text: string, j1: nat): TailParse
    requires j1 <= |text|
  {
    var j2 := j1 + Stars(text, j1);
    var j3 := j2 + Spaces(text, j2);
    var sep := j3 < |text| && text[j3] in seps;
    TailParse(Stars(text, j1), Spaces(text, j2), sep, Spaces(text, if sep then j3 + 1 else j3))
  }

  lemma GreedyTailParses(seps: set<char>, text: string, j1: nat, name: string)
    requires j1 <= |text| && MatchTail(seps, text, j1, name).Some?
    ensures TailParses(seps, text, j1, GreedyTail(seps, text, j1), name, MatchTail(seps, text, j1, name).value)
  {
  }

  /** Every occurrence of the tail of the pattern at `j1` is the one the greedy scanner finds there. */
  lemma TailParsesIsGreedy(seps: set<char>, text: string, j1: nat, p: TailParse, name: string, m: ScoreMatch)
    requires SeparatorClass(seps) && j1 <= |text| && TailParses(seps, text, j1, p, name, m)
    ensures MatchTail(seps, text, j1, name) == Some(m)
  {
    TrailIsGreedy(seps, text, j1, p, name, m);
    if p.sep {
      TailWithSeparator(seps, text, j1, p, name, m);
    } else {
      TailWithoutSeparator(seps, text, j1, p, name, m);
    }
  }

  /** A parse cannot stop short of the greedy `\*{0,2}` after the name: the next part would start at a '*'. */
  lemma TrailIsGreedy(seps: set<char>, text: string, j1: nat, p: TailParse, name: string, m: ScoreMatch)
    requires SeparatorClass(seps) && j1 <= |text| && TailParses(seps, text, j1, p, name, m)
    ensures Stars(text, j1) == p.trail
  {
  }

  lemma TailWithSeparator(seps: set<char>, text: string, j1: nat, p: TailParse, name: string, m: ScoreMatch)
    requires SeparatorClass(seps) && j1 <= |text| && TailParses(seps, text, j1, p, name, m)
    requires Stars(text, j1) == p.trail && p.sep
    ensures MatchTail(seps, text, j1, name) == Some(m)
  {
    var j2 := j1 + p.trail;
    var j3 := j2 + p.before;
    assert !IsSpace(text[j3]);
    SpacesUnique(text, j2, p.before);
    SpacesUnique(text, j3 + 1, p.after);
  }

  lemma TailWithoutSeparator(seps: set<char>, text: string, j1: nat, p: TailParse, name: string, m: ScoreMatch)
    requires SeparatorClass(seps) && j1 <= |text| && TailParses(seps, text, j1, p, name, m)
    requires Stars(text, j1) == p.trail && !p.sep
    ensures MatchTail(seps, text, j1, name) == Some(m)
  {
    var j2 := j1 + p.trail;
    var j5 := j2 + p.before + p.after;
    SpaceRunAppend(text, j2, p.before, p.after);
    SpacesUnique(text, j2, p.before + p.after);
    assert text[j5] !in seps;
    SpacesUnique(text, j5, 0);
  }

  /** Every occurrence of the pattern at `i` is the one the greedy scanner finds there. */
  lemma ParsesIsGreedy(seps: set<char>, text: string, i: nat, p: Parse, m: ScoreMatch)
    requires SeparatorClass(seps) && Parses(seps, text, i, p, m)
    ensures MatchAt(seps, text, i) == Some(m)
  {
    LeadIsGreedy(text, i, p.lead, p.metric);
    var j0 := i + p.lead;
    NameAtChoosesMetric(text, j0, p.metric);
    var j1 := j0 + |MetricNames[p.metric]|;
    TailParsesIsGreedy(seps, text, j1, p.tail, text[j0..j1], m);
    MatchAtByParts(seps, text, i, p.metric);
  }

  /** `MatchAt` in terms of its parts. */
  lemma MatchAtByParts(seps: set<char>, text: string, i: nat, t: nat)
    requires i <= |text| && NameMatchedAt(text, i + Stars(text, i)) == Some(t)
    ensures var j0 := i + Stars(text, i);
            MatchAt(seps, text, i) == MatchTail(seps, text, j0 + |MetricNames[t]|, text[j0..j0 + |MetricNames[t]|])
  {
  }

  /** A parse cannot stop short of the greedy leading `\*{0,2}`: the name would start at a '*'. */
  lemma LeadIsGreedy(text: string, i: nat, lead: nat, t: nat)
    requires StarRun(text, i, lead)
    requires t < |MetricNames| && NameAt(text, i + lead, MetricNames[t])
    ensures Stars(text, i) == lead
  {
    NameStartsWithInitial(text, i + lead, t);
  }

  /** The greedy scanner matches at `i` exactly when the pattern occurs there, with the same captures and end. */
  lemma MatchAtIffPattern(seps: set<char>, text: string, i: nat, m: ScoreMatch)
    requires SeparatorClass(seps) && i <= |text|
    ensures MatchAt(seps, text, i) == Some(m) <==> PatternAt(seps, text, i, m)
  {
    if MatchAt(seps, text, i) == Some(m) {
      GreedyParses(seps, text, i);
    }
    if PatternAt(seps, text, i, m) {
      var p :| Parses(seps, text, i, p, m);
      ParsesIsGreedy(seps, text, i, p, m);
    }
  }

  /**
   * `re.findall`'s order: the scan from `i` finds nothing exactly when the
   * pattern occurs nowhere from `i` on; otherwise its first match is the
   * leftmost occurrence, and the rest is the scan from where that match ends.
   */
  lemma {:induction false} FindFromIsLeftmostFirst(seps: set<char>, text: string, i: nat)
    requires SeparatorClass(seps) && i <= |text|
    ensures FindFrom(seps, text, i) == [] <==> NoPatternBetween(seps, text, i, |text|)
    ensures var ms := FindFrom(seps, text, i);
            ms != [] ==>
              && (exists j :: i <= j && PatternAt(seps, text, j, ms[0]) && NoPatternBetween(seps, text, i, j))
              && ms == [ms[0]] + FindFrom(seps, text, ms[0].end)
    decreases |text| - i
  {
    if i < |text| {
      match MatchAt(seps, text, i)
      case Some(m) =>
        MatchAtIffPattern(seps, text, i, m);
        assert NoPatternBetween(seps, text, i, i);
      case None =>
        forall m | true ensures !PatternAt(seps, text, i, m) {
          MatchAtIffPattern(seps, text, i, m);
        }
        FindFromIsLeftmostFirst(seps, text, i + 1);
    }
  }

  /** One iteration of the loop over the matches: overwrite the entry the name normalises to, if there is one. */
  function Step(scores: map<string, real>, m: ScoreMatch): map<string, real> {
    var key := Key(m.name);
    if key in scores then scores[key := DigitValue(m.digit)] else scores
  }

  /** The loop over the matches, in match order. */
  function Apply(scores: map<string, real>, ms: seq<ScoreMatch>): map<string, real>
    decreases |ms|
  {
    if ms == [] then scores else Step(Apply(scores, ms[..|ms| - 1]), ms[|ms| - 1])
  }

  function ExtractedWith(seps: set<char>, text: string): map<string, real> {
    Apply(Initial, FindAll(seps, text))
  }

  /** `extract_scores` with the separator class the source file spells; the evaluation uses this one. */
  function ExtractedAsWritten(text: string): map<string, real> {
    ExtractedWith(SeparatorsAsWritten, text)
  }

  /** `extract_scores` with the intended separator class. */
  function Extracted(text: string): map<string, real> {
    ExtractedWith(Separators, text)
  }

  /** `extract_scores` with the separator class `seps`: start from the sentinel for every metric, then overwrite in match order. */
  method ExtractScores(seps: set<char>, text: string) returns (scores: map<string, real>)
    ensures scores == ExtractedWith(seps, text)
    ensures scores.Keys == ScoreKeys
    ensures forall key <- scores :: ScoreValue(scores[key])
  {
    var matches := FindAll(seps, text);
    scores := map["consistency" := 9.9, "realism" := 9.9, "aesthetic_quality" := 9.9];
    for i := 0 to |matches|
      invariant scores == Apply(Initial, matches[..i])
    {
      assert matches[..i + 1][..i] == matches[..i];
      var key := Key(matches[i].name);
      if key in scores {
        scores := scores[key := DigitValue(matches[i].digit)];
      }
    }
    assert matches[..|matches|] == matches;
    ExtractedScoresAreMissingOrDigits(seps, text);
  }

  /** A score `extract_scores` can return: the sentinel, or the value of one decimal digit. */
  predicate ScoreValue(v: real) {
    v == Missing || (0.0 <= v <= 9.0 && v == v.Floor as real)
  }

  /** A match changes only the entry its own name normalises to. */
  lemma StepChangesOnlyItsKey(scores: map<string, real>, m: ScoreMatch)
    requires Key(m.name) in scores
    ensures Step(scores, m).Keys == scores.Keys
    ensures Step(scores, m)[Key(m.name)] == DigitValue(m.digit)
    ensures forall key <- scores :: key != Key(m.name) ==> Step(scores, m)[key] == scores[key]
  {
  }

  /**
   * For each key the last match that normalises to it wins, and a key no match
   * normalises to keeps its starting value.
   */
  lemma {:induction false} LastMatchWins(scores: map<string, real>, ms: seq<ScoreMatch>, key: string)
    requires key in scores
    ensures Apply(scores, ms).Keys == scores.Keys
    ensures (forall k :: 0 <= k < |ms| ==> Key(ms[k].name) != key) ==> Apply(scores, ms)[key] == scores[key]
    ensures forall k :: 0 <= k < |ms| && Key(ms[k].name) == key &&
                        (forall j :: k < j < |ms| ==> Key(ms[j].name) != key) ==>
                        Apply(scores, ms)[key] == DigitValue(ms[k].digit)
    decreases |ms|
  {
    if ms != [] {
      var init := ms[..|ms| - 1];
      LastMatchWins(scores, init, key);
      var last := ms[|ms| - 1];
      forall k | 0 <= k < |ms| && Key(ms[k].name) == key && (forall j :: k < j < |ms| ==> Key(ms[j].name) != key)
        ensures Apply(scores, ms)[key] == DigitValue(ms[k].digit)
      {
        if k < |ms| - 1 {
          assert Key(last.name) != key;
          assert init[k] == ms[k];
          assert forall j :: k < j < |init| ==> init[j] == ms[j];
        }
      }
      if forall k :: 0 <= k < |ms| ==> Key(ms[k].name) != key {
        assert forall k :: 0 <= k < |init| ==> init[k] == ms[k];
      }
    }
  }

  /** Every score comes from the sentinel or from one digit (0 to 9); nothing confines it to 0..2. */
  lemma {:induction false} ApplyKeepsScoreValues(scores: map<string, real>, ms: seq<ScoreMatch>)
    requires forall key <- scores :: ScoreValue(scores[key])
    requires forall k :: 0 <= k < |ms| ==> IsDigit(ms[k].digit)
    ensures Apply(scores, ms).Keys == scores.Keys
    ensures forall key <- Apply(scores, ms) :: ScoreValue(Apply(scores, ms)[key])
    decreases |ms|
  {
    if ms != [] {
      var init := ms[..|ms| - 1];
      assert forall k :: 0 <= k < |init| ==> init[k] == ms[k];
      ApplyKeepsScoreValues(scores, init);
      var d := ms[|ms| - 1].digit;
      var n: nat := d as int - '0' as int;
      assert DigitValue(d) == n as real;
    }
  }

  /** For every separator class and every text, the three keys, each holding the sentinel or a digit's value. */
  lemma ExtractedScoresAreMissingOrDigits(seps: set<char>, text: string)
    ensures ExtractedWith(seps, text).Keys == ScoreKeys
    ensures forall key <- ExtractedWith(seps, text) :: ScoreValue(ExtractedWith(seps, text)[key])
  {
    ApplyKeepsScoreValues(Initial, FindAll(seps, text));
  }

  /** With no metric name anywhere in the text (in any ASCII case), every score is the sentinel. */
  lemma NoMetricNameAllMissing(seps: set<char>, text: string)
    requires forall j: nat, t :: 0 <= t < |MetricNames| ==> !NameAt(text, j, MetricNames[t])
    ensures ExtractedWith(seps, text) == Initial
  {
    NoNameNoMatchFrom(seps, text, 0);
  }

  lemma {:induction false} NoNameNoMatchFrom(seps: set<char>, text: string, i: nat)
    requires i <= |text|
    requires forall j: nat, t :: i <= j && 0 <= t < |MetricNames| ==> !NameAt(text, j, MetricNames[t])
    ensures FindFrom(seps, text, i) == []
    decreases |text| - i
  {
    if i < |text| {
      var j0 := i + Stars(text, i);
      assert NameMatchedAt(text, j0).None?;
      NoNameNoMatchFrom(seps, text, i + 1);
    }
  }

  /** No match can start where fewer characters remain than the shortest name has. */
  lemma {:induction false} NoMatchNearEnd(seps: set<char>, text: string, i: nat)
    requires i <= |text| && |text| - i < |MetricNames[1]|
    ensures FindFrom(seps, text, i) == []
    decreases |text| - i
  {
    if i < |text| {
      var j0 := i + Stars(text, i);
      forall t | 0 <= t < |MetricNames| ensures !NameAt(text, j0, MetricNames[t]) {
      }
      NoMatchNearEnd(seps, text, i + 1);
    }
  }

  /** With no occurrence of the pattern from `i` on, the scan finds nothing there, whatever the separator class. */
  lemma {:induction false} NoOccurrenceNoMatchFrom(seps: set<char>, text: string, i: nat)
    requires i <= |text| && NoPatternBetween(seps, text, i, |text|)
    ensures FindFrom(seps, text, i) == []
    decreases |text| - i
  {
    if i < |text| {
      if MatchAt(seps, text, i).Some? {
        GreedyParses(seps, text, i);
        assert false;
      }
      NoOccurrenceNoMatchFrom(seps, text, i + 1);
    }
  }

  /** With no occurrence of the pattern anywhere in the text, every score is the sentinel. */
  lemma NoOccurrenceAllMissing(seps: set<char>, text: string)
    requires NoPatternBetween(seps, text, 0, |text|)
    ensures ExtractedWith(seps, text) == Initial
  {
    NoOccurrenceNoMatchFrom(seps, text, 0);
  }

  /** Every score is the sentinel exactly when the pattern occurs nowhere in the text: a match always writes a digit's value. */
  lemma AllMissingIffNoOccurrence(seps: set<char>, text: string)
    requires SeparatorClass(seps)
    ensures ExtractedWith(seps, text) == Initial <==> NoPatternBetween(seps, text, 0, |text|)
  {
    FindFromIsLeftmostFirst(seps, text, 0);
    var ms := FindAll(seps, text);
    if ms != [] {
      var last := ms[|ms| - 1];
      LastMatchWins(Initial, ms, Key(last.name));
      assert ExtractedWith(seps, text)[Key(last.name)] == DigitValue(last.digit) != Missing;
    }
  }

  /**
   * Both separator classes are ones the pattern can use, so for both the scan
   * finds exactly the occurrences of the pattern, leftmost first.
   */
  lemma SeparatorClassesKeepMatchingGreedy(seps: set<char>, text: string, i: nat, m: ScoreMatch)
    requires seps == Separators || seps == SeparatorsAsWritten
    requires i <= |text|
    ensures SeparatorClass(seps)
    ensures MatchAt(seps, text, i) == Some(m) <==> PatternAt(seps, text, i, m)
    ensures FindFrom(seps, text, i) == [] <==> NoPatternBetween(seps, text, i, |text|)
  {
    assert SeparatorClass(seps);
    MatchAtIffPattern(seps, text, i, m);
    FindFromIsLeftmostFirst(seps, text, i);
  }

  lemma NotNameAt(text: string, j: nat, name: string)
    requires j < |text| && |name| > 0 && Lower(text[j]) != Lower(name[0])
    ensures !NameAt(text, j, name)
  {
    if j + |name| <= |text| {
      assert Lower(text[j + 0]) != Lower(name[0]);
    }
  }

  /** The matches in "Realism" + sep + "1", for a separator `sep` inside or outside the class. */
  lemma {:induction false} SingleRealismScore(seps: set<char>, sep: char)
    requires !IsSpace(sep) && !IsDigit(sep) && sep != '*'
    ensures var text := "Realism" + [sep] + "1";
            FindAll(seps, text) == if sep in seps then [ScoreMatch("Realism", '1', 9)] else []
  {
    var text := "Realism" + [sep] + "1";
    MatchAtStartOfRealism(seps, sep);
    NoMatchAfterStartOfRealism(seps, sep);
    if sep in seps {
      assert |text| == 9;
      assert FindFrom(seps, text, 9) == [];
    }
  }

  /** At its start, "Realism" + sep + "1" matches exactly when `sep` is in the class. */
  lemma MatchAtStartOfRealism(seps: set<char>, sep: char)
    requires !IsSpace(sep) && !IsDigit(sep) && sep != '*'
    ensures var text := "Realism" + [sep] + "1";
            MatchAt(seps, text, 0) == if sep in seps then Some(ScoreMatch("Realism", '1', 9)) else None
  {
    var text := "Realism" + [sep] + "1";
    assert |text| == 9 && text[7] == sep && text[8] == '1';
    assert text[0..7] == "Realism";
    assert NameAt(text, 0, MetricNames[1]);
    NotNameAt(text, 0, MetricNames[0]);
    assert Stars(text, 0) == 0 && Stars(text, 7) == 0;
    assert Spaces(text, 7) == 0;
    assert NameMatchedAt(text, 0) == Some(1);
    if sep in seps {
      assert Spaces(text, 8) == 0;
    }
  }

  /** No match of "Realism" + sep + "1" starts after its first character. */
  lemma NoMatchAfterStartOfRealism(seps: set<char>, sep: char)
    ensures FindFrom(seps, "Realism" + [sep] + "1", 1) == []
  {
    var text := "Realism" + [sep] + "1";
    assert |text| == 9;
    NoMatchNearEnd(seps, text, 3);
    assert Stars(text, 1) == 0 && Stars(text, 2) == 0;
    NotNameAt(text, 1, MetricNames[0]);
    NotNameAt(text, 1, MetricNames[1]);
    NotNameAt(text, 1, MetricNames[2]);
    NotNameAt(text, 2, MetricNames[0]);
    NotNameAt(text, 2, MetricNames[1]);
    assert !NameAt(text, 2, MetricNames[2]);
    assert MatchAt(seps, text, 1).None? && MatchAt(seps, text, 2).None?;
  }

  /** The scores after the single match of "Realism" with the digit 1. */
  lemma RealismOne()
    ensures Apply(Initial, [ScoreMatch("Realism", '1', 9)])["realism"] == 1.0
  {
    MetricNameKeys();
    var ms := [ScoreMatch("Realism", '1', 9)];
    assert ms[..0] == [];
    assert Key(ms[0].name) == "realism";
  }

  /** As written, a score after a full-width colon is not found and the sentinel stays. */
  lemma FullWidthColonMissedAsWritten(text: string)
    requires text == "Realism" + ['\U{FF1A}'] + "1"
    ensures "realism" in ExtractedAsWritten(text) && ExtractedAsWritten(text)["realism"] == Missing
    ensures "realism" in Extracted(text) && Extracted(text)["realism"] == 1.0
  {
    SingleRealismScore(SeparatorsAsWritten, '\U{FF1A}');
    SingleRealismScore(Separators, '\U{FF1A}');
    RealismOne();
  }

  /** As written, one of the three stray characters is accepted as a separator. */
  lemma StraySeparatorAcceptedAsWritten(text: string)
    requires text == "Realism" + ['\U{00BC}'] + "1"
    ensures "realism" in ExtractedAsWritten(text) && ExtractedAsWritten(text)["realism"] == 1.0
    ensures "realism" in Extracted(text) && Extracted(text)["realism"] == Missing
  {
    SingleRealismScore(SeparatorsAsWritten, '\U{00BC}');
    SingleRealismScore(Separators, '\U{00BC}');
    RealismOne();
  }

  /** One line of the answer format the rubric asks for: a metric name, a colon, a space and the digit. */
  function AnswerLine(t: nat, d: char): string
    requires t < |MetricNames|
  {
    MetricNames[t] + ": " + [d]
  }

  /** An answer line inside a text is one match of the pattern, capturing the name and the digit. */
  lemma AnswerLineMatches(seps: set<char>, text: string, p: nat, t: nat, d: char)
    requires SeparatorClass(seps) && ':' in seps && t < |MetricNames| && IsDigit(d)
    requires p + |AnswerLine(t, d)| <= |text| && text[p..p + |AnswerLine(t, d)|] == AnswerLine(t, d)
    ensures MatchAt(seps, text, p) == Some(ScoreMatch(MetricNames[t], d, p + |AnswerLine(t, d)|))
  {
    var line := AnswerLine(t, d);
    var n := |MetricNames[t]|;
    assert forall k :: 0 <= k < |line| ==> text[p + k] == line[k] by {
      forall k | 0 <= k < |line| ensures text[p + k] == line[k] {
        assert text[p..p + |line|][k] == text[p + k];
      }
    }
    assert forall k :: 0 <= k < n ==> line[k] == MetricNames[t][k];
    assert NameAt(text, p, MetricNames[t]);
    assert text[p..p + n] == MetricNames[t];
    assert text[p + n] == ':' && text[p + n + 1] == ' ' && text[p + n + 2] == d;
    var q := Parse(0, t, TailParse(0, 0, true, 1));
    var m := ScoreMatch(MetricNames[t], d, p + n + 3);
    assert SpaceRun(text, p + n + 1, 1) by {
      assert SpaceRun(text, p + n + 2, 0);
    }
    assert TailParses(seps, text, p + n, q.tail, text[p..p + n], m);
    assert Parses(seps, text, p, q, m);
    ParsesIsGreedy(seps, text, p, q, m);
  }

  /** No match starts at a line break. */
  lemma NoMatchAtLineBreak(seps: set<char>, text: string, p: nat)
    requires p < |text| && text[p] == '\n'
    ensures MatchAt(seps, text, p) == None
  {
    assert Stars(text, p) == 0;
    NotNameAt(text, p, MetricNames[0]);
    NotNameAt(text, p, MetricNames[1]);
    NotNameAt(text, p, MetricNames[2]);
  }

  lemma FindFromAfterMatch(seps: set<char>, text: string, i: nat, m: ScoreMatch)
    requires i < |text| && MatchAt(seps, text, i) == Some(m)
    ensures FindFrom(seps, text, i) == [m] + FindFrom(seps, text, m.end)
  {
  }

  lemma FindFromSkips(seps: set<char>, text: string, i: nat)
    requires i < |text| && MatchAt(seps, text, i) == None
    ensures FindFrom(seps, text, i) == FindFrom(seps, text, i + 1)
  {
  }

  /** The matches in the three-line answer the rubric asks for: one per line, in line order. */
  lemma RubricAnswerMatches(seps: set<char>, a: char, b: char, c: char)
    requires SeparatorClass(seps) && ':' in seps && IsDigit(a) && IsDigit(b) && IsDigit(c)
    ensures var l0, l1, l2 := AnswerLine(0, a), AnswerLine(1, b), AnswerLine(2, c);
            FindAll(seps, l0 + "\n" + l1 + "\n" + l2) ==
              [ScoreMatch(MetricNames[0], a, |l0|), ScoreMatch(MetricNames[1], b, |l0| + |l1| + 1),
               ScoreMatch(MetricNames[2], c, |l0| + |l1| + |l2| + 2)]
  {
    var l0, l1, l2 := AnswerLine(0, a), AnswerLine(1, b), AnswerLine(2, c);
    var text := l0 + "\n" + l1 + "\n" + l2;
    var p1, p2 := |l0| + 1, |l0| + |l1| + 2;
    assert text[0..|l0|] == l0;
    assert text[p1..p1 + |l1|] == l1;
    assert text[p2..p2 + |l2|] == l2;
    assert |text| == p2 + |l2|;
    var m0 := ScoreMatch(MetricNames[0], a, |l0|);
    var m1 := ScoreMatch(MetricNames[1], b, p1 + |l1|);
    var m2 := ScoreMatch(MetricNames[2], c, |text|);
    AnswerLineMatches(seps, text, 0, 0, a);
    AnswerLineMatches(seps, text, p1, 1, b);
    AnswerLineMatches(seps, text, p2, 2, c);
    NoMatchAtLineBreak(seps, text, |l0|);
    NoMatchAtLineBreak(seps, text, p1 + |l1|);
    FindFromAfterMatch(seps, text, 0, m0);
    FindFromSkips(seps, text, |l0|);
    FindFromAfterMatch(seps, text, p1, m1);
    FindFromSkips(seps, text, p1 + |l1|);
    FindFromAfterMatch(seps, text, p2, m2);
  }

  /** Three matches, one for each metric in order, set each metric to its digit. */
  lemma ApplyOnePerMetric(a: char, b: char, c: char, e0: nat, e1: nat, e2: nat)
    ensures Apply(Initial, [ScoreMatch(MetricNames[0], a, e0), ScoreMatch(MetricNames[1], b, e1), ScoreMatch(MetricNames[2], c, e2)]) ==
            map["consistency" := DigitValue(a), "realism" := DigitValue(b), "aesthetic_quality" := DigitValue(c)]
  {
    MetricNameKeys();
    var ms := [ScoreMatch(MetricNames[0], a, e0), ScoreMatch(MetricNames[1], b, e1), ScoreMatch(MetricNames[2], c, e2)];
    assert ms[..2][..1] == [ms[0]] && [ms[0]][..0] == [];
    var s1 := Initial["consistency" := DigitValue(a)];
    assert Apply(Initial, [ms[0]]) == s1;
    var s2 := s1["realism" := DigitValue(b)];
    assert Apply(Initial, ms[..2]) == s2;
    assert Apply(Initial, ms) == s2["aesthetic_quality" := DigitValue(c)];
  }

  /**
   * The three-line answer the rubric asks for, with any digits, gives exactly
   * those digits, for every separator class that holds ':'.
   */
  lemma AnswerInRubricFormat(seps: set<char>, a: char, b: char, c: char)
    requires SeparatorClass(seps) && ':' in seps && IsDigit(a) && IsDigit(b) && IsDigit(c)
    ensures ExtractedWith(seps, AnswerLine(0, a) + "\n" + AnswerLine(1, b) + "\n" + AnswerLine(2, c)) ==
            map["consistency" := DigitValue(a), "realism" := DigitValue(b), "aesthetic_quality" := DigitValue(c)]
  {
    var l0, l1, l2 := AnswerLine(0, a), AnswerLine(1, b), AnswerLine(2, c);
    RubricAnswerMatches(seps, a, b, c);
    ApplyOnePerMetric(a, b, c, |l0|, |l0| + |l1| + 1, |l0| + |l1| + |l2| + 2);
  }
}
