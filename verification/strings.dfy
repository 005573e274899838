/**
 * The Python `str` operations the pipeline relies on, written out over
 * `seq<char>`: prefix and substring tests, `split`, `count`, `join`,
 * `replace`, `strip`, `lower`, `capitalize`, `int()` and `str()` of a
 * natural number, and Python's ordering of strings.
 */
module Strings {
  import opened Wrappers

  predicate StartsWith(s: string, p: string) {
    |p| <= |s| && s[..|p|] == p
  }

  predicate EndsWith(s: string, p: string) {
    |p| <= |s| && s[|s| - |p|..] == p
  }

  /** `p` occurs in `s` starting at index `i`. */
  predicate OccursAt(s: string, p: string, i: nat) {
    i + |p| <= |s| && s[i..i + |p|] == p
  }

  /** An occurrence after the first character is an occurrence in the tail. */
  lemma OccursShift(s: string, p: string)
    requires |s| > 0
    ensures forall i: nat :: i > 0 ==> (OccursAt(s, p, i) <==> OccursAt(s[1..], p, i - 1))
  {
    forall i: nat | i > 0
      ensures OccursAt(s, p, i) <==> OccursAt(s[1..], p, i - 1)
    {
      if i + |p| <= |s| {
        assert s[1..][i - 1..i - 1 + |p|] == s[i..i + |p|];
      }
    }
  }

  /** `s.find(p)`: the first index at which `p` occurs, if any. */
  function Find(s: string, p: string): (r: Option<nat>)
    ensures r.Some? ==> OccursAt(s, p, r.value)
    ensures r.Some? ==> forall i: nat :: i < r.value ==> !OccursAt(s, p, i)
    ensures r.None? ==> forall i: nat :: !OccursAt(s, p, i)
    decreases |s|
  {
    if |p| > |s| then None
    else if s[..|p|] == p then Some(0)
    else
      var rest := Find(s[1..], p);
      OccursShift(s, p);
      if rest.None? then None else Some(rest.value + 1)
  }

  /** Python's `p in s` for strings. */
  predicate Contains(s: string, p: string) {
    Find(s, p).Some?
  }

  lemma ContainsOccurrence(s: string, p: string, i: nat)
    requires OccursAt(s, p, i)
    ensures Contains(s, p)
  {
  }

  /** Whatever surrounds it, a string that is spelled out inside `s` is in `s`. */
  lemma ContainsInfix(a: string, p: string, b: string)
    ensures Contains(a + p + b, p)
  {
    assert (a + p + b)[|a|..|a| + |p|] == p;
    ContainsOccurrence(a + p + b, p, |a|);
  }

  /** A prefix stays a prefix when text is appended. */
  lemma StartsWithExtend(a: string, b: string, p: string)
    requires StartsWith(a, p)
    ensures StartsWith(a + b, p)
  {
    assert (a + b)[..|p|] == a[..|p|];
  }

  /** What a string starts with occurs right after anything put before it. */
  lemma OccursAfter(a: string, x: string, p: string)
    requires StartsWith(x, p)
    ensures OccursAt(a + x, p, |a|)
  {
    assert (a + x)[|a|..|a| + |p|] == x[..|p|];
  }

  /** Text found in a string is still found once more text is put before or after it. */
  lemma ContainsExtend(x: string, p: string, y: string)
    requires Contains(x, p)
    ensures Contains(x + y, p) && Contains(y + x, p)
  {
    var i := Find(x, p).value;
    assert (x + y)[i..i + |p|] == x[i..i + |p|];
    ContainsOccurrence(x + y, p, i);
    assert (y + x)[|y| + i..|y| + i + |p|] == x[i..i + |p|];
    ContainsOccurrence(y + x, p, |y| + i);
  }

  /**
   * Python's `s.split(sep)` for a non-empty separator: the pieces between
   * the non-overlapping occurrences of `sep`, found from the left.
   */
  function Split(s: string, sep: string): (r: seq<string>)
    requires sep != []
    ensures |r| >= 1
    decreases |s|
  {
    if |s| < |sep| then [s]
    else if s[..|sep|] == sep then [""] + Split(s[|sep|..], sep)
    else
      var rest := Split(s[1..], sep);
      [[s[0]] + rest[0]] + rest[1..]
  }

  /** Python's `s.count(sep)`: non-overlapping occurrences, found from the left. */
  function Count(s: string, sep: string): nat
    requires sep != []
    decreases |s|
  {
    if |s| < |sep| then 0
    else if s[..|sep|] == sep then 1 + Count(s[|sep|..], sep)
    else Count(s[1..], sep)
  }

  /** Python's `sep.join(parts)`. */
  function Join(parts: seq<string>, sep: string): string {
    if |parts| == 0 then ""
    else if |parts| == 1 then parts[0]
    else parts[0] + sep + Join(parts[1..], sep)
  }

  /** A text free of `p` has a tail free of `p`. */
  lemma ContainsNotInTail(s: string, p: string)
    requires s != [] && !Contains(s, p)
    ensures !Contains(s[1..], p)
  {
    OccursShift(s, p);
    forall i: nat
      ensures !OccursAt(s[1..], p, i)
    {
      assert !OccursAt(s, p, i + 1);
    }
  }

  /** A text that opens with the separator splits into an empty first piece. */
  lemma SplitAtSeparator(sep: string, b: string)
    requires sep != []
    ensures Split(sep + b, sep) == [""] + Split(b, sep)
  {
    var s := sep + b;
    assert s[..|sep|] == sep;
    assert s[|sep|..] == b;
  }

  /** Where no separator starts, the first character joins the first piece. */
  lemma SplitCons(c: char, t: string, sep: string)
    requires sep != [] && |t| + 1 >= |sep| && ([c] + t)[..|sep|] != sep
    ensures var rest := Split(t, sep);
      Split([c] + t, sep) == [[c] + rest[0]] + rest[1..]
  {
    assert ([c] + t)[1..] == t;
  }

  /** `split` yields exactly one piece more than `count` finds separators. */
  lemma {:induction false} SplitCount(s: string, sep: string)
    requires sep != []
    ensures |Split(s, sep)| == Count(s, sep) + 1
    decreases |s|
  {
    if |s| < |sep| {
    } else if s[..|sep|] == sep {
      SplitCount(s[|sep|..], sep);
    } else {
      SplitCount(s[1..], sep);
    }
  }

  /** A string has no separator in it exactly when `count` finds none. */
  lemma {:induction false} CountZero(s: string, sep: string)
    requires sep != []
    ensures Count(s, sep) == 0 <==> !Contains(s, sep)
    decreases |s|
  {
    if |s| < |sep| {
    } else if s[..|sep|] == sep {
      assert OccursAt(s, sep, 0);
    } else {
      CountZero(s[1..], sep);
      OccursShift(s, sep);
      if Contains(s[1..], sep) {
        ContainsOccurrence(s, sep, Find(s[1..], sep).value + 1);
      } else {
        assert forall i: nat :: !OccursAt(s, sep, i) by {
          forall i: nat ensures !OccursAt(s, sep, i) {
            if i > 0 { assert !OccursAt(s[1..], sep, i - 1); }
          }
        }
      }
    }
  }

  lemma JoinCons(x: string, rest: seq<string>, sep: string)
    requires |rest| >= 1
    ensures Join([x] + rest, sep) == x + sep + Join(rest, sep)
  {
    assert ([x] + rest)[1..] == rest;
  }

  lemma JoinExtendFirst(c: char, rest: seq<string>, sep: string)
    requires |rest| >= 1
    ensures Join([[c] + rest[0]] + rest[1..], sep) == [c] + Join(rest, sep)
  {
    if |rest| > 1 {
      JoinCons([c] + rest[0], rest[1..], sep);
      assert rest == [rest[0]] + rest[1..];
      JoinCons(rest[0], rest[1..], sep);
    }
  }

  /** Joining the pieces of a split with the same separator gives the string back. */
  lemma {:induction false} JoinSplit(s: string, sep: string)
    requires sep != []
    ensures Join(Split(s, sep), sep) == s
    decreases |s|
  {
    if |s| < |sep| {
    } else if s[..|sep|] == sep {
      var b := s[|sep|..];
      JoinSplit(b, sep);
      assert s == sep + b;
      SplitAtSeparator(sep, b);
      JoinCons("", Split(b, sep), sep);
    } else {
      var t := s[1..];
      JoinSplit(t, sep);
      assert s == [s[0]] + t;
      SplitCons(s[0], t, sep);
      JoinExtendFirst(s[0], Split(t, sep), sep);
    }
  }

  /** A string that does not contain the separator splits into itself alone. */
  lemma {:induction false} SplitWithoutSeparator(s: string, sep: string)
    requires sep != [] && !Contains(s, sep)
    ensures Split(s, sep) == [s]
    decreases |s|
  {
    if |s| < |sep| {
    } else {
      assert !OccursAt(s, sep, 0);
      OccursShift(s, sep);
      assert forall i: nat :: !OccursAt(s[1..], sep, i) by {
        forall i: nat ensures !OccursAt(s[1..], sep, i) {
          assert !OccursAt(s, sep, i + 1);
        }
      }
      SplitWithoutSeparator(s[1..], sep);
      assert s == [s[0]] + s[1..];
    }
  }

  /** Python's `s.replace(pat, rep)`: every non-overlapping occurrence, from the left. */
  function Replace(s: string, pat: string, rep: string): string
    requires pat != []
    decreases |s|
  {
    if |s| < |pat| then s
    else if s[..|pat|] == pat then rep + Replace(s[|pat|..], pat, rep)
    else [s[0]] + Replace(s[1..], pat, rep)
  }

  /** An occurrence at the very start is replaced, and the scan goes on after it. */
  lemma ReplaceAtStart(pat: string, t: string, rep: string)
    requires pat != []
    ensures Replace(pat + t, pat, rep) == rep + Replace(t, pat, rep)
  {
    assert (pat + t)[..|pat|] == pat;
    assert (pat + t)[|pat|..] == t;
  }

  /** Where no occurrence starts, the first character is kept. */
  lemma ReplaceSkipsFirst(t: string, pat: string, rep: string)
    requires pat != [] && |t| >= |pat| && t[..|pat|] != pat
    ensures Replace(t, pat, rep) == [t[0]] + Replace(t[1..], pat, rep)
  {
  }

  /** Replacing a character by text without it leaves no such character. */
  lemma {:induction false} ReplaceRemovesChar(s: string, c: char, rep: string)
    requires c !in rep
    ensures c !in Replace(s, [c], rep)
    decreases |s|
  {
    if |s| < 1 {
    } else if s[..1] == [c] {
      ReplaceRemovesChar(s[1..], c, rep);
    } else {
      assert s[0] != c by { assert s[..1] == [s[0]]; }
      ReplaceRemovesChar(s[1..], c, rep);
    }
  }

  /** Replacing never introduces a character found neither in `s` nor in `rep`. */
  lemma {:induction false} ReplaceKeepsAbsentChar(s: string, pat: string, rep: string, c: char)
    requires pat != [] && c !in s && c !in rep
    ensures c !in Replace(s, pat, rep)
    decreases |s|
  {
    if |s| < |pat| {
    } else if s[..|pat|] == pat {
      assert forall k :: 0 <= k < |s| - |pat| ==> s[|pat|..][k] == s[|pat| + k];
      ReplaceKeepsAbsentChar(s[|pat|..], pat, rep, c);
    } else {
      assert forall k :: 0 <= k < |s| - 1 ==> s[1..][k] == s[1 + k];
      ReplaceKeepsAbsentChar(s[1..], pat, rep, c);
    }
  }

  /**
   * No occurrence of `pat` can start among the first `n` characters when none
   * of them is `pat`'s first character, so `replace` keeps them as they are.
   */
  lemma {:induction false} ReplaceKeepsPrefix(s: string, pat: string, rep: string, n: nat)
    requires pat != [] && n <= |s|
    requires forall k :: 0 <= k < n ==> s[k] != pat[0]
    ensures n <= |Replace(s, pat, rep)| && Replace(s, pat, rep)[..n] == s[..n]
    decreases n
  {
    if n == 0 {
    } else if |s| < |pat| {
    } else {
      assert s[..|pat|] != pat by { assert s[..|pat|][0] == s[0]; }
      assert forall k :: 0 <= k < n - 1 ==> s[1..][k] == s[k + 1];
      ReplaceKeepsPrefix(s[1..], pat, rep, n - 1);
      var r := Replace(s[1..], pat, rep);
      assert Replace(s, pat, rep) == [s[0]] + r;
      assert ([s[0]] + r)[..n] == [s[0]] + r[..n - 1];
      assert s[..n] == [s[0]] + s[1..][..n - 1];
    }
  }

  /** Python's `str.isspace()` for a single character (the characters `\s` matches). */
  predicate IsSpace(c: char) {
    c == ' ' || c == '\t' || c == '\n' || c == '\r' || c == '\U{B}' || c == '\U{C}'
    || ('\U{1C}' <= c <= '\U{1F}') || c == '\U{85}' || c == '\U{A0}' || c == '\U{1680}'
    || ('\U{2000}' <= c <= '\U{200A}') || c == '\U{2028}' || c == '\U{2029}' || c == '\U{202F}'
    || c == '\U{205F}' || c == '\U{3000}'
  }

  /** Python's `s.lstrip()` */
  function LStrip(s: string): (r: string)
    ensures |r| <= |s|
  {
    if |s| > 0 && IsSpace(s[0]) then LStrip(s[1..]) else s
  }

  /** Python's `s.rstrip()` */
  function RStrip(s: string): (r: string)
    ensures |r| <= |s|
  {
    if |s| > 0 && IsSpace(s[|s| - 1]) then RStrip(s[..|s| - 1]) else s
  }

  /** `lstrip` removes exactly the leading whitespace: a suffix is left that does not start with whitespace. */
  lemma {:induction false} LStripSpec(s: string)
    ensures var r := LStrip(s);
      && (r == [] || !IsSpace(r[0]))
      && r == s[|s| - |r|..]
      && forall k :: 0 <= k < |s| - |r| ==> IsSpace(s[k])
    decreases |s|
  {
    if |s| > 0 && IsSpace(s[0]) {
      LStripSpec(s[1..]);
    }
  }

  /** `rstrip` removes exactly the trailing whitespace: a prefix is left that does not end with whitespace. */
  lemma {:induction false} RStripSpec(s: string)
    ensures var r := RStrip(s);
      && (r == [] || !IsSpace(r[|r| - 1]))
      && r == s[..|r|]
      && forall k :: |r| <= k < |s| ==> IsSpace(s[k])
    decreases |s|
  {
    if |s| > 0 && IsSpace(s[|s| - 1]) {
      RStripSpec(s[..|s| - 1]);
    }
  }

  /** Python's `s.strip()`: leading and trailing whitespace removed. */
  function Strip(s: string): string {
    RStrip(LStrip(s))
  }

  /** `strip()` gives the empty string exactly when the text is all whitespace. */
  lemma StripEmpty(s: string)
    ensures Strip(s) == [] <==> forall k :: 0 <= k < |s| ==> IsSpace(s[k])
  {
    var l := LStrip(s);
    LStripSpec(s);
    RStripSpec(l);
    assert l == [] || l[0] == s[|s| - |l|];
  }

  predicate IsDigit(c: char) {
    '0' <= c <= '9'
  }

  predicate AllDigits(s: string) {
    forall k :: 0 <= k < |s| ==> IsDigit(s[k])
  }

  /** The value of a string of decimal digits (leading zeros allowed). */
  function DigitsValue(d: string): nat
    requires AllDigits(d)
  {
    if |d| == 0 then 0
    else DigitsValue(d[..|d| - 1]) * 10 + (d[|d| - 1] as int - '0' as int)
  }

  function DigitChar(k: nat): (c: char)
    requires k < 10
    ensures IsDigit(c) && c as int - '0' as int == k
  {
    (k + '0' as int) as char
  }

  /** Python's `str(n)` for a natural number: decimal, no leading zeros. */
  function NatToString(n: nat): (r: string)
    ensures AllDigits(r) && r != []
  {
    if n < 10 then [DigitChar(n)]
    else NatToString(n / 10) + [DigitChar(n % 10)]
  }

  /** Reading back what `str` wrote gives the number. */
  lemma {:induction false} NatToStringValue(n: nat)
    ensures DigitsValue(NatToString(n)) == n
  {
    if n >= 10 {
      NatToStringValue(n / 10);
      var r := NatToString(n);
      assert r[..|r| - 1] == NatToString(n / 10);
    }
  }

  /** A digit string with a non-zero first digit is at least ten to the power of its length less one. */
  lemma {:induction false} DigitsValueLowerBound(d: string)
    requires AllDigits(d) && |d| >= 2 && d[0] != '0'
    ensures DigitsValue(d) >= 10
    decreases |d|
  {
    var p := d[..|d| - 1];
    if |p| >= 2 {
      DigitsValueLowerBound(p);
    } else {
      assert p[0] == d[0];
    }
  }

  /** Writing out the value of a digit string without leading zeros gives that string back. */
  lemma {:induction false} DigitsRoundTrip(d: string)
    requires AllDigits(d) && d != [] && d[0] != '0'
    ensures NatToString(DigitsValue(d)) == d
    decreases |d|
  {
    var v := DigitsValue(d);
    if |d| == 1 {
      assert d == [d[0]];
    } else {
      DigitsValueLowerBound(d);
      var p := d[..|d| - 1];
      assert p[0] == d[0];
      DigitsRoundTrip(p);
      assert v / 10 == DigitsValue(p) && v % 10 == d[|d| - 1] as int - '0' as int;
      assert d == p + [d[|d| - 1]];
    }
  }

  /**
   * The digit groups Python's `int()` accepts: digits, with single
   * underscores allowed between two digits (`1_000`).
   */
  predicate WellGrouped(d: string) {
    && |d| > 0 && IsDigit(d[0]) && IsDigit(d[|d| - 1])
    && DigitsOrUnderscores(d)
    && forall k :: 0 <= k < |d| - 1 && d[k] == '_' ==> IsDigit(d[k + 1])
  }

  predicate DigitsOrUnderscores(d: string) {
    forall k :: 0 <= k < |d| ==> IsDigit(d[k]) || d[k] == '_'
  }

  function DropUnderscores(d: string): (r: string)
    ensures DigitsOrUnderscores(d) ==> AllDigits(r)
  {
    if d == [] then []
    else (if d[0] == '_' then [] else [d[0]]) + DropUnderscores(d[1..])
  }

  /** Python's `int(s)` in base 10, or `None` where it raises `ValueError`. */
  function ParseInt(s: string): Option<int> {
    var t := Strip(s);
    if |t| > 0 && (t[0] == '+' || t[0] == '-') then
      var d := t[1..];
      if WellGrouped(d) then
        var v: int := DigitsValue(DropUnderscores(d));
        Some(if t[0] == '-' then -v else v)
      else None
    else if WellGrouped(t) then Some(DigitsValue(DropUnderscores(t)))
    else None
  }

  /** A string of plain digits reads as its decimal value. */
  lemma ParseIntDigits(d: string)
    requires d != [] && AllDigits(d)
    ensures ParseInt(d) == Some(DigitsValue(d) as int)
  {
    assert !IsSpace(d[0]) && !IsSpace(d[|d| - 1]);
    assert LStrip(d) == d;
    assert Strip(d) == d;
    assert WellGrouped(d);
    DropUnderscoresDigits(d);
  }

  lemma {:induction false} DropUnderscoresDigits(d: string)
    requires AllDigits(d)
    ensures DropUnderscores(d) == d
  {
    if d != [] {
      DropUnderscoresDigits(d[1..]);
      assert d == [d[0]] + d[1..];
    }
  }

  function LowerChar(c: char): char {
    if 'A' <= c <= 'Z' then (c as int + 32) as char else c
  }

  function UpperChar(c: char): char {
    if 'a' <= c <= 'z' then (c as int - 32) as char else c
  }

  /** Python's `s.lower()` on ASCII letters. */
  function Lower(s: string): (r: string)
    ensures |r| == |s|
    ensures forall k :: 0 <= k < |r| ==> !('A' <= r[k] <= 'Z')
  {
    seq(|s|, k requires 0 <= k < |s| => LowerChar(s[k]))
  }

  /** Python's `word.capitalize()` on ASCII letters: first letter upper, the rest lower. */
  function Capitalize(w: string): (r: string)
    ensures |r| == |w|
    ensures |r| > 0 ==> !('a' <= r[0] <= 'z')
    ensures forall k :: 1 <= k < |r| ==> !('A' <= r[k] <= 'Z')
  {
    if w == [] then [] else [UpperChar(w[0])] + Lower(w[1..])
  }

  /** Python's `a <= b` on strings: lexicographic by code point, a prefix first. */
  predicate LexLe(a: string, b: string) {
    |a| == 0 || (|b| > 0 && (a[0] < b[0] || (a[0] == b[0] && LexLe(a[1..], b[1..]))))
  }

  lemma {:induction false} LexLeTotal(a: string, b: string)
    ensures LexLe(a, b) || LexLe(b, a)
  {
    if |a| > 0 && |b| > 0 && a[0] == b[0] {
      LexLeTotal(a[1..], b[1..]);
    }
  }

  lemma {:induction false} LexLeTransitive(a: string, b: string, c: string)
    requires LexLe(a, b) && LexLe(b, c)
    ensures LexLe(a, c)
  {
    if |a| > 0 && a[0] == b[0] && b[0] == c[0] {
      LexLeTransitive(a[1..], b[1..], c[1..]);
    }
  }

  lemma {:induction false} LexLeAntisymmetric(a: string, b: string)
    requires LexLe(a, b) && LexLe(b, a)
    ensures a == b
  {
    if |a| > 0 {
      LexLeAntisymmetric(a[1..], b[1..]);
      assert a == [a[0]] + a[1..] && b == [b[0]] + b[1..];
    }
  }
}
