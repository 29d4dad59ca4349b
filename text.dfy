/**
 * The handful of Python string operations the scripts rely on:
 * `str.split(sep)`, `str.endswith`, `in`, `str.split(p, 1)[1]`,
 * `str.replace(p, '')`, `os.path.basename`, `os.path.join` and `str(int)`.
 */
module Text {

  predicate StartsWith(s: string, p: string) {
    |p| <= |s| && s[..|p|] == p
  }

  predicate EndsWith(s: string, p: string) {
    |p| <= |s| && s[|s| - |p|..] == p
  }

  /** Python's `p in s`. */
  predicate Contains(s: string, p: string) {
    exists i :: 0 <= i <= |s| && StartsWith(s[i..], p)
  }

  /** Python's `s.split(sep)` for a one-character separator. */
  function Split(s: string, sep: char): (parts: seq<string>)
    ensures |parts| >= 1
    ensures forall k :: 0 <= k < |parts| ==> sep !in parts[k]
    decreases |s|
  {
    if s == [] then [[]]
    else
      var rest := Split(s[1..], sep);
      if s[0] == sep then [[]] + rest
      else [[s[0]] + rest[0]] + rest[1..]
  }

  /** Python's `sep.join(parts)`: the inverse of `Split`. */
  function JoinWith(parts: seq<string>, sep: char): string
    requires |parts| >= 1
    decreases |parts|
  {
    if |parts| == 1 then parts[0] else parts[0] + [sep] + JoinWith(parts[1..], sep)
  }

  /** Joining the parts of a split gives the string back. */
  lemma {:induction false} SplitJoin(s: string, sep: char)
    ensures JoinWith(Split(s, sep), sep) == s
    decreases |s|
  {
    if s != [] {
      var rest := Split(s[1..], sep);
      SplitJoin(s[1..], sep);
      assert s == [s[0]] + s[1..];
      if s[0] != sep {
        var parts := Split(s, sep);
        assert parts[1..] == rest[1..];
        if |rest| > 1 {
          assert JoinWith(parts, sep) == [s[0]] + rest[0] + [sep] + JoinWith(rest[1..], sep);
        }
      }
    }
  }

  lemma {:induction false} SplitWithoutSeparator(s: string, sep: char)
    requires sep !in s
    ensures Split(s, sep) == [s]
    decreases |s|
  {
    if s != [] {
      SplitWithoutSeparator(s[1..], sep);
      assert [s[0]] + s[1..] == s;
    }
  }

  /** A leading part without the separator comes off as the first part. */
  lemma SplitAfterPart(a: string, b: string, sep: char)
    requires sep !in a
    ensures Split(a + [sep] + b, sep) == [a] + Split(b, sep)
  {
    SplitAtSeparator(a, b, sep);
    SplitWithoutSeparator(a, sep);
  }

  /** Splitting at a separator splits the two sides independently. */
  lemma {:induction false} SplitAtSeparator(a: string, b: string, sep: char)
    ensures Split(a + [sep] + b, sep) == Split(a, sep) + Split(b, sep)
    decreases |a|
  {
    if a == [] {
      assert a + [sep] + b == [sep] + b;
      assert ([sep] + b)[1..] == b;
    } else {
      var s := a + [sep] + b;
      assert s[0] == a[0] && s[1..] == a[1..] + [sep] + b;
      SplitAtSeparator(a[1..], b, sep);
      var head, tail := Split(a[1..], sep), Split(b, sep);
      if a[0] != sep {
        assert (head + tail)[0] == head[0];
        assert (head + tail)[1..] == head[1..] + tail;
      }
    }
  }

  lemma ContainsInTail(s: string, p: string)
    requires Contains(s, p) && !StartsWith(s, p)
    ensures Contains(s[1..], p)
  {
    var i :| 0 <= i <= |s| && StartsWith(s[i..], p);
    assert i > 0 && s[1..][i - 1..] == s[i..];
  }

  /** Where the first occurrence of `p` in `s` starts. */
  function FirstOccurrence(s: string, p: string): (i: nat)
    requires Contains(s, p)
    ensures i + |p| <= |s| && StartsWith(s[i..], p)
    ensures forall j :: 0 <= j < i ==> !StartsWith(s[j..], p)
    decreases |s|
  {
    if StartsWith(s, p) then
      assert s[0..] == s;
      0
    else
      ContainsInTail(s, p);
      var i := FirstOccurrence(s[1..], p);
      assert s[1..][i..] == s[i + 1..];
      assert forall j :: 1 <= j <= |s| ==> s[1..][j - 1..] == s[j..];
      i + 1
  }

  /** Python's `s.split(p, 1)[1]` where `p in s`: what follows the first occurrence of `p`. */
  function AfterFirst(s: string, p: string): string
    requires Contains(s, p)
  {
    s[FirstOccurrence(s, p) + |p|..]
  }

  /** Python's `s.replace(p, '')`: delete the occurrences of `p`, scanning left to right. */
  function RemoveAll(s: string, p: string): (r: string)
    requires |p| > 0
    ensures |r| <= |s|
    decreases |s|
  {
    if s == [] then []
    else if StartsWith(s, p) then RemoveAll(s[|p|..], p)
    else [s[0]] + RemoveAll(s[1..], p)
  }

  /** A prefix in which no occurrence of `p` starts is kept as it is. */
  lemma {:induction false} RemoveAllKeepsPrefix(x: string, y: string, p: string)
    requires |p| > 0
    requires forall k :: 0 <= k < |x| ==> !StartsWith((x + y)[k..], p)
    ensures RemoveAll(x + y, p) == x + RemoveAll(y, p)
    decreases |x|
  {
    if x != [] {
      assert (x + y)[0..] == x + y;
      assert (x + y)[1..] == x[1..] + y;
      forall k | 0 <= k < |x[1..]|
        ensures !StartsWith((x[1..] + y)[k..], p)
      {
        assert (x[1..] + y)[k..] == (x + y)[k + 1..];
      }
      assert !StartsWith(x + y, p);
      RemoveAllKeepsPrefix(x[1..], y, p);
      assert [x[0]] + x[1..] == x;
    }
  }

  /** Python's `os.path.basename` for '/'-separated paths: what follows the last '/'. */
  function Basename(path: string): (b: string)
    ensures '/' !in b
    ensures EndsWith(path, b)
    ensures |b| < |path| ==> path[|path| - |b| - 1] == '/'
    decreases |path|
  {
    if path == [] then []
    else if path[|path| - 1] == '/' then []
    else Basename(path[..|path| - 1]) + [path[|path| - 1]]
  }

  lemma {:induction false} BasenameOfFileInDirectory(dir: string, file: string)
    requires '/' !in file
    ensures Basename(dir + "/" + file) == file
    decreases |file|
  {
    if file == [] {
      assert dir + "/" + file == dir + "/";
    } else {
      var last := file[|file| - 1];
      assert (dir + "/" + file)[..|dir + "/" + file| - 1] == dir + "/" + file[..|file| - 1];
      BasenameOfFileInDirectory(dir, file[..|file| - 1]);
      assert file[..|file| - 1] + [last] == file;
    }
  }

  /** Python's `os.path.join(a, b)` on POSIX. */
  function PathJoin(a: string, b: string): (r: string)
    ensures StartsWith(b, "/") ==> r == b
    ensures !StartsWith(b, "/") ==> EndsWith(r, b) && |r| >= |a| + |b| && r[..|a|] == a
  {
    if StartsWith(b, "/") then b
    else if a == [] || a[|a| - 1] == '/' then a + b
    else a + "/" + b
  }

  function DigitChar(d: nat): (c: char)
    requires d < 10
    ensures '0' <= c <= '9' && c as int - '0' as int == d
  {
    ('0' as int + d) as char
  }

  /** The value of a string of decimal digits. */
  function DecimalValue(s: string): int
    decreases |s|
  {
    if s == [] then 0 else 10 * DecimalValue(s[..|s| - 1]) + (s[|s| - 1] as int - '0' as int)
  }

  /** Decimal digits of a natural number, without leading zeros. */
  function Decimal(n: nat): (s: string)
    ensures |s| >= 1 && (|s| > 1 ==> s[0] != '0')
    ensures forall k :: 0 <= k < |s| ==> '0' <= s[k] <= '9'
    ensures DecimalValue(s) == n
    decreases n
  {
    if n < 10 then [DigitChar(n)]
    else
      var s := Decimal(n / 10) + [DigitChar(n % 10)];
      assert s[..|s| - 1] == Decimal(n / 10);
      s
  }

  /** Python's `str(n)` for an integer. */
  function IntToString(n: int): (s: string)
    ensures |s| >= 1 && '/' !in s
  {
    if n >= 0 then Decimal(n) else "-" + Decimal(-n)
  }
}
