/** The Python string operations the naming and href rules are built from:
    `str.replace`, `str.split('/')[-1]`, `sep.join` and `str` of a
    non-negative integer. */
module Text {

  /** `pattern` occurs in `s` starting at index `k`. */
  predicate OccursAt(s: string, pattern: string, k: int)
  {
    0 <= k && k + |pattern| <= |s| && s[k..k + |pattern|] == pattern
  }

  predicate Contains(s: string, pattern: string)
  {
    exists k :: 0 <= k <= |s| && OccursAt(s, pattern, k)
  }

  /** Python's `s.replace(pattern, replacement)` for a non-empty pattern:
      scanning from the left, every non-overlapping occurrence is replaced,
      wherever in the string it is. */
  function ReplaceAll(s: string, pattern: string, replacement: string): string
    requires pattern != []
    decreases |s|
  {
    if |s| < |pattern| then s
    else if s[..|pattern|] == pattern then replacement + ReplaceAll(s[|pattern|..], pattern, replacement)
    else [s[0]] + ReplaceAll(s[1..], pattern, replacement)
  }

  /** A string without the pattern comes back unchanged. */
  lemma {:induction false} ReplaceAllAbsent(s: string, pattern: string, replacement: string)
    requires pattern != []
    requires !Contains(s, pattern)
    ensures ReplaceAll(s, pattern, replacement) == s
    decreases |s|
  {
    if |s| >= |pattern| {
      assert !OccursAt(s, pattern, 0);
      forall k | OccursAt(s[1..], pattern, k)
        ensures OccursAt(s, pattern, k + 1)
      {
        assert s[1..][k..k + |pattern|] == s[k + 1..k + 1 + |pattern|];
      }
      ReplaceAllAbsent(s[1..], pattern, replacement);
    }
  }

  /** The leftmost occurrence is replaced and the scan resumes right after it:
      together with ReplaceAllAbsent this determines ReplaceAll completely. */
  lemma {:induction false} ReplaceAllLeftmost(s: string, pattern: string, replacement: string, k: nat)
    requires pattern != []
    requires OccursAt(s, pattern, k)
    requires forall j :: 0 <= j < k ==> !OccursAt(s, pattern, j)
    ensures ReplaceAll(s, pattern, replacement)
         == s[..k] + replacement + ReplaceAll(s[k + |pattern|..], pattern, replacement)
    decreases k
  {
    var n := |pattern|;
    if k == 0 {
      assert s[..n] == s[0..n];
      assert s[..0] == [];
    } else {
      var t := s[1..];
      assert !OccursAt(s, pattern, 0);
      ReplaceAllSkip(s, pattern, replacement);
      OccursShift(s, pattern, k - 1);
      forall j | 0 <= j < k - 1
        ensures !OccursAt(t, pattern, j)
      {
        OccursShift(s, pattern, j);
      }
      ReplaceAllLeftmost(t, pattern, replacement, k - 1);
      LeftmostStep(s, replacement, ReplaceAll(t, pattern, replacement), ReplaceAll(s[k + n..], pattern, replacement), k, n);
    }
  }

  /** Putting the skipped first character back in front of the tail's scan. */
  lemma LeftmostStep(s: string, replacement: string, scanned: string, rest: string, k: nat, n: nat)
    requires 0 < k && k + n <= |s|
    requires scanned == s[1..][..k - 1] + replacement + rest
    ensures [s[0]] + scanned == s[..k] + replacement + rest
  {
    assert [s[0]] + s[1..][..k - 1] == s[..k];
    AppendAssoc3([s[0]], s[1..][..k - 1], replacement, rest);
  }

  /** An occurrence in the tail is one in the string, one place further on. */
  lemma OccursShift(s: string, pattern: string, j: nat)
    requires s != []
    ensures OccursAt(s[1..], pattern, j) <==> OccursAt(s, pattern, j + 1)
  {
    if j + |pattern| <= |s| - 1 {
      assert s[1..][j..j + |pattern|] == s[j + 1..j + 1 + |pattern|];
    }
  }

  lemma AppendAssoc3(w: string, x: string, y: string, z: string)
    ensures w + (x + y + z) == (w + x) + y + z
  {
  }

  /** One step of the scan where no occurrence starts at the front. */
  lemma ReplaceAllSkip(s: string, pattern: string, replacement: string)
    requires pattern != [] && s != []
    requires !OccursAt(s, pattern, 0)
    ensures ReplaceAll(s, pattern, replacement) == [s[0]] + ReplaceAll(s[1..], pattern, replacement)
  {
    if |s| < |pattern| {
      assert ReplaceAll(s[1..], pattern, replacement) == s[1..];
    } else {
      assert s[..|pattern|] == s[0..|pattern|];
    }
  }

  /** The first character of `pattern` occurs nowhere else in it. */
  predicate HeadOnce(pattern: string)
  {
    pattern != [] && forall j :: 0 < j < |pattern| ==> pattern[j] != pattern[0]
  }

  /** For such a pattern, no occurrence starts in a non-empty `front` that
      does not itself start with one and runs on into a following occurrence. */
  lemma NoStraddle(front: string, pattern: string, rest: string)
    requires HeadOnce(pattern)
    requires front != [] && !OccursAt(front, pattern, 0)
    ensures !OccursAt(front + pattern + rest, pattern, 0)
  {
    var s := front + pattern + rest;
    var n := |pattern|;
    if |front| >= n {
      assert s[..n] == front[..n];
    } else {
      assert s[|front|] == pattern[0];
    }
  }

  /** One step of the scan at an occurrence in front. */
  lemma ReplaceAllMatch(s: string, pattern: string, replacement: string)
    requires pattern != [] && OccursAt(s, pattern, 0)
    ensures ReplaceAll(s, pattern, replacement) == replacement + ReplaceAll(s[|pattern|..], pattern, replacement)
  {
    assert s[..|pattern|] == s[0..|pattern|];
  }

  /** The equation of `ReplaceAllAround`, for one `front`. */
  ghost predicate SplitsAround(front: string, pattern: string, replacement: string, rest: string)
    requires pattern != []
  {
    ReplaceAll(front + pattern + rest, pattern, replacement)
      == ReplaceAll(front, pattern, replacement) + replacement + ReplaceAll(rest, pattern, replacement)
  }

  /** `ReplaceAllAround` when nothing precedes the occurrence. */
  lemma AroundEmpty(pattern: string, replacement: string, rest: string)
    requires pattern != []
    ensures SplitsAround([], pattern, replacement, rest)
  {
    var s := [] + pattern + rest;
    assert s == pattern + rest;
    assert s[|pattern|..] == rest;
    ReplaceAllMatch(s, pattern, replacement);
  }

  /** `ReplaceAllAround` when `front` starts with an occurrence: reduce to the
      text after it. */
  lemma AroundMatch(front: string, pattern: string, replacement: string, rest: string)
    requires pattern != [] && OccursAt(front, pattern, 0)
    requires SplitsAround(front[|pattern|..], pattern, replacement, rest)
    ensures SplitsAround(front, pattern, replacement, rest)
  {
    var s := front + pattern + rest;
    var n := |pattern|;
    assert s[..n] == front[..n];
    assert s[n..] == front[n..] + pattern + rest;
    ReplaceAllMatch(s, pattern, replacement);
    ReplaceAllMatch(front, pattern, replacement);
  }

  /** The scan steps over the first character of `front` without entering
      the occurrence after it. */
  lemma SkipAcross(front: string, pattern: string, replacement: string, rest: string)
    requires HeadOnce(pattern)
    requires front != [] && !OccursAt(front, pattern, 0)
    ensures ReplaceAll(front + pattern + rest, pattern, replacement)
         == [front[0]] + ReplaceAll(front[1..] + pattern + rest, pattern, replacement)
  {
    var s := front + pattern + rest;
    NoStraddle(front, pattern, rest);
    ReplaceAllSkip(s, pattern, replacement);
    assert s[0] == front[0];
    assert s[1..] == front[1..] + pattern + rest;
  }

  /** `ReplaceAllAround` when `front` does not start with an occurrence:
      reduce to `front[1..]`. */
  lemma AroundSkip(front: string, pattern: string, replacement: string, rest: string)
    requires HeadOnce(pattern)
    requires front != [] && !OccursAt(front, pattern, 0)
    requires SplitsAround(front[1..], pattern, replacement, rest)
    ensures SplitsAround(front, pattern, replacement, rest)
  {
    SkipAcross(front, pattern, replacement, rest);
    ReplaceAllSkip(front, pattern, replacement);
    var a := ReplaceAll(front[1..], pattern, replacement);
    var b := ReplaceAll(rest, pattern, replacement);
    assert [front[0]] + (a + replacement + b) == ([front[0]] + a) + replacement + b;
  }

  /** For a pattern whose first character is not repeated in it, the replace
      works independently on the text before an occurrence and the text after
      it: no occurrence can straddle the boundary. */
  lemma {:induction false} ReplaceAllAround(front: string, pattern: string, replacement: string, rest: string)
    requires HeadOnce(pattern)
    ensures ReplaceAll(front + pattern + rest, pattern, replacement)
         == ReplaceAll(front, pattern, replacement) + replacement + ReplaceAll(rest, pattern, replacement)
    decreases |front|
  {
    if front == [] {
      AroundEmpty(pattern, replacement, rest);
    } else if OccursAt(front, pattern, 0) {
      ReplaceAllAround(front[|pattern|..], pattern, replacement, rest);
      AroundMatch(front, pattern, replacement, rest);
    } else {
      ReplaceAllAround(front[1..], pattern, replacement, rest);
      AroundSkip(front, pattern, replacement, rest);
    }
  }

  /** Python's `s.replace('-', '')`. */
  function StripDashes(s: string): string
  {
    ReplaceAll(s, "-", "")
  }

  /** One step of the scan: a leading dash is dropped, any other leading
      character is kept. */
  lemma StripDashesCons(s: string)
    requires s != []
    ensures StripDashes(s) == (if s[0] == '-' then "" else [s[0]]) + StripDashes(s[1..])
  {
    assert s[..1] == [s[0]];
  }

  /** Stripping works character by character: it distributes over
      concatenation ... */
  lemma {:induction false} StripDashesConcat(a: string, b: string)
    ensures StripDashes(a + b) == StripDashes(a) + StripDashes(b)
    decreases |a|
  {
    if a == [] {
      assert a + b == b;
    } else {
      var head := if a[0] == '-' then "" else [a[0]];
      assert (a + b)[0] == a[0];
      assert (a + b)[1..] == a[1..] + b;
      StripDashesCons(a + b);
      StripDashesCons(a);
      StripDashesConcat(a[1..], b);
      calc {
        StripDashes(a + b);
        head + StripDashes(a[1..] + b);
        head + (StripDashes(a[1..]) + StripDashes(b));
        (head + StripDashes(a[1..])) + StripDashes(b);
        StripDashes(a) + StripDashes(b);
      }
    }
  }

  /** ... and drops exactly the dashes. */
  lemma StripDashesChar(c: char)
    ensures StripDashes([c]) == if c == '-' then "" else [c]
  {
    StripDashesCons([c]);
  }

  lemma {:induction false} StripDashesNoDash(s: string)
    ensures '-' !in StripDashes(s)
    decreases |s|
  {
    if s != [] {
      StripDashesCons(s);
      StripDashesNoDash(s[1..]);
    }
  }

  lemma StripDashesUnchanged(s: string)
    requires '-' !in s
    ensures StripDashes(s) == s
  {
    forall k | 0 <= k <= |s|
      ensures !OccursAt(s, "-", k)
    {
      if k + 1 <= |s| {
        assert s[k..k + 1] == [s[k]];
      }
    }
    ReplaceAllAbsent(s, "-", "");
  }

  /** A `YYYY-MM-DD` date keeps exactly its three parts, in order, when no
      part holds a dash. */
  lemma StripDashesDate(date: string, y: string, m: string, d: string)
    requires date == y + "-" + m + "-" + d
    requires '-' !in y && '-' !in m && '-' !in d
    ensures StripDashes(date) == y + m + d
  {
    StripDashesChar('-');
    StripDashesConcat(y + "-" + m + "-", d);
    StripDashesConcat(y + "-" + m, "-");
    StripDashesConcat(y + "-", m);
    StripDashesConcat(y, "-");
    StripDashesUnchanged(y);
    StripDashesUnchanged(m);
    StripDashesUnchanged(d);
  }

  /** `s` with every occurrence of `c` dropped, the other characters kept in
      order. */
  function Without(s: string, c: char): string
    decreases |s|
  {
    if s == [] then [] else (if s[0] == c then [] else [s[0]]) + Without(s[1..], c)
  }

  /** Replacing "-" by "" is the same as dropping each dash. */
  lemma {:induction false} StripDashesIsWithout(s: string)
    ensures StripDashes(s) == Without(s, '-')
    decreases |s|
  {
    if s != [] {
      StripDashesCons(s);
      StripDashesIsWithout(s[1..]);
    }
  }

  lemma StripDashesIdempotent(s: string)
    ensures StripDashes(StripDashes(s)) == StripDashes(s)
  {
    StripDashesNoDash(s);
    StripDashesUnchanged(StripDashes(s));
  }

  /** Python's `s.split('/')[-1]`: the text after the last '/', or all of `s`
      when it has none. */
  function LastSegment(s: string): (r: string)
    ensures '/' !in r
    decreases |s|
  {
    if s == [] then ""
    else if s[|s| - 1] == '/' then ""
    else LastSegment(s[..|s| - 1]) + [s[|s| - 1]]
  }

  /** The last segment is a suffix of `s`, and either all of it or preceded
      by a '/'. */
  lemma {:induction false} LastSegmentIsSuffix(s: string)
    ensures var r := LastSegment(s);
      && |r| <= |s| && s[|s| - |r|..] == r
      && (|r| < |s| ==> s[|s| - |r| - 1] == '/')
    decreases |s|
  {
    if s != [] && s[|s| - 1] != '/' {
      var init := s[..|s| - 1];
      var tail := LastSegment(init);
      LastSegmentIsSuffix(init);
      SnocSlice(s, |init| - |tail|);
    }
  }

  lemma SnocSlice(s: string, j: nat)
    requires j < |s|
    ensures s[j..] == s[..|s| - 1][j..] + [s[|s| - 1]]
    ensures 0 < j ==> s[j - 1] == s[..|s| - 1][j - 1]
  {
  }

  lemma AppendAssoc(x: string, y: string, z: string)
    ensures x + (y + z) == x + y + z
  {
  }

  /** Python's `sep.join(parts)`. */
  function Join(parts: seq<string>, sep: string): string
  {
    if parts == [] then ""
    else if |parts| == 1 then parts[0]
    else parts[0] + sep + Join(parts[1..], sep)
  }

  lemma JoinFour(a: string, b: string, c: string, d: string, sep: string)
    ensures Join([a, b, c, d], sep) == a + sep + b + sep + c + sep + d
  {
    assert [a, b, c, d][1..] == [b, c, d];
    assert [b, c, d][1..] == [c, d];
    assert [c, d][1..] == [d];
    assert Join([d], sep) == d;
    assert Join([c, d], sep) == c + sep + d;
    assert Join([b, c, d], sep) == b + sep + c + sep + d;
  }

  predicate IsDigit(c: char)
  {
    '0' <= c <= '9'
  }

  function DigitChar(d: nat): (c: char)
    requires d < 10
    ensures IsDigit(c) && c as int - '0' as int == d
  {
    ('0' as int + d) as char
  }

  /** The integer a string of decimal digits denotes. */
  function DecimalValue(s: string): nat
    requires forall i :: 0 <= i < |s| ==> IsDigit(s[i])
    decreases |s|
  {
    if s == [] then 0
    else
      var last := s[|s| - 1];
      assert IsDigit(last);
      10 * DecimalValue(s[..|s| - 1]) + (last as int - '0' as int)
  }

  /** Python's `str(n)` for `n >= 0`: decimal digits without leading zeros. */
  function DecimalString(n: nat): (s: string)
    ensures 1 <= |s|
    ensures forall i :: 0 <= i < |s| ==> IsDigit(s[i])
    ensures |s| > 1 ==> s[0] != '0'
    ensures DecimalValue(s) == n
    decreases n
  {
    if n < 10 then [DigitChar(n)]
    else
      var s := DecimalString(n / 10) + [DigitChar(n % 10)];
      assert s[..|s| - 1] == DecimalString(n / 10);
      s
  }
}
