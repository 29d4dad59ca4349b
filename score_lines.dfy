/**
 * One line of a score file as the aggregators see it after `json.loads`,
 * and the left-to-right sums they take of the composite scores.
 */
module ScoreLines {
  import opened Wrappers

  /**
   * One member of a decoded JSON object: present with a value of the expected
   * type (a JSON number, booleans included, for scores and ids; a string for
   * the subcategory), present with a value of another type (a string, `null`,
   * a list, an object), or absent.
   */
  datatype Field<+T> = Present(value: T) | Mistyped | Missing

  /** The outcome of decoding one line. */
  datatype Line =
    | BadJson
    | NotObject
    | Object(consistency: Field<real>, realism: Field<real>, aestheticQuality: Field<real>,
             promptId: Field<real>, subcategory: Field<string>)

  /**
   * What a `process_jsonl_file` without error handling does with a file:
   * an exception escapes it, it returns `None`, or it returns a report.
   */
  datatype FileOutcome<+T> = Raised | Skipped | Accepted(report: T)

  /** `v in [data['consistency'], data['realism'], data['aesthetic_quality']]` on an object line. */
  predicate HasScore(line: Line, v: real) {
    line.Object? &&
    (line.consistency == Present(v) || line.realism == Present(v) || line.aestheticQuality == Present(v))
  }

  /** All three scores are present and numeric. */
  predicate AllNumeric(line: Line) {
    line.Object? && line.consistency.Present? && line.realism.Present? && line.aestheticQuality.Present?
  }

  /** All three scores are present, numeric and within `[lo, hi]`. */
  predicate ScoresWithin(line: Line, lo: real, hi: real) {
    AllNumeric(line) &&
    lo <= line.consistency.value <= hi && lo <= line.realism.value <= hi && lo <= line.aestheticQuality.value <= hi
  }

  /** Python's `sum(xs)`, adding from the left. */
  function Sum(xs: seq<real>): real
    decreases |xs|
  {
    if xs == [] then 0.0 else Sum(xs[..|xs| - 1]) + xs[|xs| - 1]
  }

  lemma {:induction false} SumAppend(xs: seq<real>, ys: seq<real>)
    ensures Sum(xs + ys) == Sum(xs) + Sum(ys)
    decreases |ys|
  {
    if ys == [] {
      assert xs + ys == xs;
    } else {
      assert (xs + ys)[..|xs + ys| - 1] == xs + ys[..|ys| - 1];
      SumAppend(xs, ys[..|ys| - 1]);
    }
  }

  /** A sum of values in `[lo, hi]` lies between `|xs| * lo` and `|xs| * hi`. */
  lemma {:induction false} SumBounds(xs: seq<real>, lo: real, hi: real)
    requires forall k :: 0 <= k < |xs| ==> lo <= xs[k] <= hi
    ensures |xs| as real * lo <= Sum(xs) <= |xs| as real * hi
    decreases |xs|
  {
    if xs != [] {
      SumBounds(xs[..|xs| - 1], lo, hi);
    }
  }

  /** The mean of values in `[lo, hi]` lies in `[lo, hi]`. */
  lemma MeanBounds(xs: seq<real>, lo: real, hi: real)
    requires |xs| > 0
    requires forall k :: 0 <= k < |xs| ==> lo <= xs[k] <= hi
    ensures lo <= Sum(xs) / |xs| as real <= hi
  {
    SumBounds(xs, lo, hi);
    var n := |xs| as real;
    assert Sum(xs) / n * n == Sum(xs);
  }

  /** Half the mean of values in `[0, 2]` lies in `[0, 1]`. */
  lemma HalfMeanBounds(xs: seq<real>)
    requires |xs| > 0
    requires forall k :: 0 <= k < |xs| ==> 0.0 <= xs[k] <= 2.0
    ensures 0.0 <= Sum(xs) / (|xs| * 2) as real <= 1.0
  {
    MeanBounds(xs, 0.0, 2.0);
    var n := |xs| as real;
    assert Sum(xs) / (|xs| * 2) as real == (Sum(xs) / n) / 2.0;
  }

  /** Summing `n` copies of `v` gives `n * v`. */
  lemma SumOfConstant(xs: seq<real>, v: real)
    requires forall k :: 0 <= k < |xs| ==> xs[k] == v
    ensures Sum(xs) == |xs| as real * v
  {
    SumBounds(xs, v, v);
  }

  /**
   * What one file of a listing does to the `results` dictionary of a
   * scorer's `main`: it makes `main` raise, it leaves the dictionary as it
   * is, or it stores a report under a model name.
   */
  datatype FileEffect<+R> = Crash | Ignore | Store(name: string, report: R)

  predicate StoresUnder<R>(e: FileEffect<R>, name: string) {
    e.Store? && e.name == name
  }

  /** The dictionary after the files' effects in listing order, or `None` once one raised. */
  function Fold<R>(effects: seq<FileEffect<R>>): Option<map<string, R>>
    decreases |effects|
  {
    if effects == [] then Some(map[])
    else match Fold(effects[..|effects| - 1])
      case None => None
      case Some(results) =>
        match effects[|effects| - 1]
        case Crash => None
        case Ignore => Some(results)
        case Store(name, report) => Some(results[name := report])
  }

  /** Once a file has raised, later files change nothing. */
  lemma {:induction false} FoldCrashIsFinal<R>(effects: seq<FileEffect<R>>, i: nat)
    requires i < |effects| && Fold(effects[..i + 1]).None?
    ensures Fold(effects).None?
    decreases |effects| - i
  {
    if i + 1 == |effects| {
      assert effects[..i + 1] == effects;
    } else {
      assert effects[..i + 2][..i + 1] == effects[..i + 1];
      FoldCrashIsFinal(effects, i + 1);
    }
  }

  /** The fold raises exactly when some file raises. */
  lemma {:induction false} FoldRaisesExactly<R>(effects: seq<FileEffect<R>>)
    ensures Fold(effects).None? <==> exists k :: 0 <= k < |effects| && effects[k].Crash?
    decreases |effects|
  {
    if effects != [] {
      var init := effects[..|effects| - 1];
      FoldRaisesExactly(init);
      if exists k :: 0 <= k < |effects| && effects[k].Crash? {
        var k :| 0 <= k < |effects| && effects[k].Crash?;
        if k < |init| {
          assert init[k] == effects[k];
        }
      }
      if exists k :: 0 <= k < |init| && init[k].Crash? {
        var k :| 0 <= k < |init| && init[k].Crash?;
        assert init[k] == effects[k];
      }
    }
  }

  /** A name has an entry exactly when some file stored under it. */
  lemma {:induction false} FoldStoredExactly<R>(effects: seq<FileEffect<R>>, name: string)
    requires Fold(effects).Some?
    ensures name in Fold(effects).value <==> exists k :: 0 <= k < |effects| && StoresUnder(effects[k], name)
    decreases |effects|
  {
    if effects != [] {
      var init := effects[..|effects| - 1];
      FoldStoredExactly(init, name);
      if exists k :: 0 <= k < |effects| && StoresUnder(effects[k], name) {
        var k :| 0 <= k < |effects| && StoresUnder(effects[k], name);
        if k < |init| {
          assert init[k] == effects[k];
        }
      }
      if exists k :: 0 <= k < |init| && StoresUnder(init[k], name) {
        var k :| 0 <= k < |init| && StoresUnder(init[k], name);
        assert init[k] == effects[k];
      }
    }
  }

  /** A name's entry is the report of the last file that stored under it. */
  lemma {:induction false} FoldLastStoreWins<R>(effects: seq<FileEffect<R>>, name: string)
    requires Fold(effects).Some? && name in Fold(effects).value
    ensures exists k :: 0 <= k < |effects| && StoresUnder(effects[k], name) &&
                        Fold(effects).value[name] == effects[k].report &&
                        forall q :: k < q < |effects| ==> !StoresUnder(effects[q], name)
    decreases |effects|
  {
    var init := effects[..|effects| - 1];
    var last := |effects| - 1;
    if StoresUnder(effects[last], name) {
      assert Fold(effects).value[name] == effects[last].report;
    } else {
      var results := Fold(init).value;
      assert name in results;
      FoldLastStoreWins(init, name);
      var k :| 0 <= k < |init| && StoresUnder(init[k], name) && results[name] == init[k].report &&
               forall q :: k < q < |init| ==> !StoresUnder(init[q], name);
      assert init[k] == effects[k];
      forall q | k < q < |effects| ensures !StoresUnder(effects[q], name) {
        if q < last {
          assert init[q] == effects[q];
        }
      }
    }
  }

  /** Python's `d.get(k, default)`. */
  function GetOr<K, V>(m: map<K, V>, k: K, default: V): (v: V)
    ensures k in m ==> v == m[k]
    ensures k !in m ==> v == default
  {
    if k in m then m[k] else default
  }
}
