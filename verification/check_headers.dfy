/**
 * The header tool: it recognises the project header at the top of a code
 * file, composes a header from the file's name and content and the
 * repository's data, and prepends it to the files that lack one. Git
 * (remote URL, and the author of the most recent commit touching a file, as
 * `iter_commits(max_count=1, reverse=True)` yields it) and the directory
 * walk are inputs.
 */
module CheckHeaders {
  import opened Wrappers
  import opened Strings
  import opened Paths

  // ---------------------------------------------------------------------
  // has_header
  // ---------------------------------------------------------------------

  /** The text every header's second line starts with, as the detection patterns spell it. */
  const Title: string := "[augmented urban data triangulation"
  const Marker: string := "# " + Title
  const TripleQuote: string := "\"\"\""
  const BashLine: string := "#!/bin/bash"
  const DocOpen: string := "/**"
  const DocClose: string := "*/"

  /** Where the run of whitespace (`\s`) that starts at `i` ends. */
  function SpaceRunEnd(s: string, i: nat): (e: nat)
    requires i <= |s|
    ensures i <= e <= |s| && (e == |s| || !IsSpace(s[e]))
    ensures forall k :: i <= k < e ==> IsSpace(s[k])
    decreases |s| - i
  {
    if i < |s| && IsSpace(s[i]) then SpaceRunEnd(s, i + 1) else i
  }

  /** `\s*\n# \[augmented urban data triangulation` matches at `i`: a whitespace run ending in a newline, then the marker. */
  predicate MarkerAfterBreak(s: string, i: nat)
    requires i <= |s|
  {
    var e := SpaceRunEnd(s, i);
    e > i && s[e - 1] == '\n' && OccursAt(s, Marker, e)
  }

  /** `has_header(content, file_ext)`: the start-anchored pattern of each extension. */
  predicate HasHeader(content: string, ext: string)
    ensures HasHeader(content, ext) ==> |content| > 0 && content[0] in "#\"/"
    ensures HasHeader(content, ext) && ext == ".sh" ==> StartsWith(content, BashLine)
  {
    if ext == ".py" then
      StartsWith(content, TripleQuote) && Contains(content[3..], TripleQuote)
    else if ext == ".sh" then
      StartsWith(content, BashLine) && MarkerAfterBreak(content, |BashLine|)
    else if ext == ".js" || ext == ".ts" then
      StartsWith(content, DocOpen) && Contains(content[3..], DocClose)
    else if ext == ".R" then
      StartsWith(content, "#") && MarkerAfterBreak(content, 1)
    else
      StartsWith(content, Marker)
  }

  /**
   * The `.sh` pattern in regex terms: `#!/bin/bash`, then whitespace up to
   * some newline that the marker follows. Backtracking can only stop at the
   * run's last character, since the marker does not start with whitespace.
   */
  lemma ShHeaderSpec(content: string)
    ensures HasHeader(content, ".sh") <==>
      StartsWith(content, BashLine) &&
      exists j :: |BashLine| <= j < |content| && content[j] == '\n' && OccursAt(content, Marker, j + 1) &&
        forall k :: |BashLine| <= k < j ==> IsSpace(content[k])
  {
    if StartsWith(content, BashLine) {
      var e := SpaceRunEnd(content, |BashLine|);
      if MarkerAfterBreak(content, |BashLine|) {
        assert content[e - 1] == '\n' && OccursAt(content, Marker, e - 1 + 1);
      }
      forall j | |BashLine| <= j < |content| && content[j] == '\n' && OccursAt(content, Marker, j + 1) &&
        (forall k :: |BashLine| <= k < j ==> IsSpace(content[k]))
        ensures MarkerAfterBreak(content, |BashLine|)
      {
        assert content[j + 1..j + 1 + |Marker|][0] == '#';
        assert !IsSpace(content[j + 1]);
        assert IsSpace(content[j]);
        assert j + 1 == e;
      }
    }
  }

  // ---------------------------------------------------------------------
  // generate_description, generate_short_title
  // ---------------------------------------------------------------------

  /** `\w` on ASCII: a letter, a digit or `_`. */
  predicate IsWordChar(c: char) {
    'a' <= c <= 'z' || 'A' <= c <= 'Z' || '0' <= c <= '9' || c == '_'
  }

  predicate AllWordChars(w: string) {
    forall k :: 0 <= k < |w| ==> IsWordChar(w[k])
  }

  /** Where the run of word characters that starts at `i` ends. */
  function WordRunEnd(s: string, i: nat): (e: nat)
    requires i <= |s|
    ensures i <= e <= |s| && (e == |s| || !IsWordChar(s[e]))
    ensures forall k :: i <= k < e ==> IsWordChar(s[k])
    decreases |s| - i
  {
    if i < |s| && IsWordChar(s[i]) then WordRunEnd(s, i + 1) else i
  }

  /**
   * `re.findall(kw + r'\s+(\w+)', s[i:])`: scanning from the left, each
   * match is the keyword, at least one whitespace character and the longest
   * run of word characters, which is captured; the scan resumes after it.
   */
  function FindAll(s: string, kw: string, i: nat): (r: seq<string>)
    requires kw != [] && i <= |s|
    ensures forall k :: 0 <= k < |r| ==> r[k] != [] && AllWordChars(r[k])
    decreases |s| - i
  {
    if i + |kw| > |s| then []
    else if !OccursAt(s, kw, i) then FindAll(s, kw, i + 1)
    else
      var a := i + |kw|;
      var e1 := SpaceRunEnd(s, a);
      var e2 := WordRunEnd(s, e1);
      if e1 == a || e2 == e1 then FindAll(s, kw, i + 1)
      else [s[e1..e2]] + FindAll(s, kw, e2)
  }

  /** No character is both whitespace and a word character. */
  lemma SpaceNotWord(c: char)
    requires IsWordChar(c)
    ensures !IsSpace(c)
  {
  }

  /** `kw name` on its own is found, and its name is the one match. */
  lemma FindAllSingle(kw: string, name: string)
    requires kw != [] && name != [] && AllWordChars(name)
    ensures FindAll(kw + " " + name, kw, 0) == [name]
  {
    var s := kw + " " + name;
    assert OccursAt(s, kw, 0) by { assert s[..|kw|] == kw; }
    SpaceNotWord(name[0]);
    assert s[|kw|] == ' ' && s[|kw| + 1] == name[0];
    assert SpaceRunEnd(s, |kw| + 1) == |kw| + 1;
    assert SpaceRunEnd(s, |kw|) == |kw| + 1;
    assert forall k :: |kw| + 1 <= k < |s| ==> s[k] == name[k - |kw| - 1];
    assert WordRunEnd(s, |kw| + 1) == |s|;
    assert s[|kw| + 1..|s|] == name;
    assert FindAll(s, kw, |s|) == [];
    assert FindAll(s, kw, 0) == [s[|kw| + 1..|s|]] + FindAll(s, kw, |s|);
  }

  /**
   * A match of `kw\s+(\w+)` in `s`: the keyword at `p`, whitespace from its
   * end up to `j`, and the capture `s[j..e]`, the longest run of word
   * characters from `j`.
   */
  predicate MatchAt(s: string, kw: string, p: nat, j: nat, e: nat) {
    && p + |kw| < j < e <= |s|
    && OccursAt(s, kw, p)
    && (forall k :: p + |kw| <= k < j ==> IsSpace(s[k]))
    && (forall k :: j <= k < e ==> IsWordChar(s[k]))
    && (e == |s| || !IsWordChar(s[e]))
  }

  /** `w` is the capture of a match that starts at or after `i`. */
  ghost predicate CapturedFrom(s: string, kw: string, i: nat, w: string) {
    exists p: nat, j: nat, e: nat :: i <= p && MatchAt(s, kw, p, j, e) && w == s[j..e]
  }

  /** Each name `FindAll` returns is the capture of a match at or after `i`. */
  lemma {:induction false} FindAllSound(s: string, kw: string, i: nat)
    requires kw != [] && i <= |s|
    ensures forall n :: 0 <= n < |FindAll(s, kw, i)| ==> CapturedFrom(s, kw, i, FindAll(s, kw, i)[n])
    decreases |s| - i
  {
    if i + |kw| <= |s| {
      var a := i + |kw|;
      var e1 := SpaceRunEnd(s, a);
      var e2 := WordRunEnd(s, e1);
      var r := FindAll(s, kw, i);
      var found := OccursAt(s, kw, i) && e1 != a && e2 != e1;
      var next := if found then e2 else i + 1;
      FindAllSound(s, kw, next);
      var rest := FindAll(s, kw, next);
      var head := if found then [s[e1..e2]] else [];
      assert r == head + rest;
      if found {
        CapturedHere(s, kw, i, e1, e2);
      }
      CapturesConcat(s, kw, i, next, head, rest);
    }
  }

  /** Captures from `i` followed by captures from a later point are all captures from `i`. */
  lemma CapturesConcat(s: string, kw: string, i: nat, next: nat, head: seq<string>, rest: seq<string>)
    requires i <= next
    requires forall n :: 0 <= n < |head| ==> CapturedFrom(s, kw, i, head[n])
    requires forall n :: 0 <= n < |rest| ==> CapturedFrom(s, kw, next, rest[n])
    ensures forall n :: 0 <= n < |head + rest| ==> CapturedFrom(s, kw, i, (head + rest)[n])
  {
    forall n | |head| <= n < |head + rest| ensures CapturedFrom(s, kw, i, (head + rest)[n]) {
      CapturedLater(s, kw, i, next, rest[n - |head|]);
    }
  }

  /** The keyword at `i`, whitespace and a word run make a match at `i`. */
  lemma CapturedHere(s: string, kw: string, i: nat, e1: nat, e2: nat)
    requires i + |kw| <= |s| && OccursAt(s, kw, i)
    requires e1 == SpaceRunEnd(s, i + |kw|) && e2 == WordRunEnd(s, e1) && i + |kw| < e1 < e2
    ensures CapturedFrom(s, kw, i, s[e1..e2])
  {
    assert MatchAt(s, kw, i, e1, e2);
  }

  lemma CapturedLater(s: string, kw: string, i: nat, i': nat, w: string)
    requires i <= i' && CapturedFrom(s, kw, i', w)
    ensures CapturedFrom(s, kw, i, w)
  {
    var p: nat, j: nat, e: nat :| i' <= p && MatchAt(s, kw, p, j, e) && w == s[j..e];
  }

  /** The whitespace run from `a` ends where the first non-space character is. */
  lemma {:induction false} SpaceRunEndAt(s: string, a: nat, j: nat)
    requires a <= j < |s| && !IsSpace(s[j]) && forall k :: a <= k < j ==> IsSpace(s[k])
    ensures SpaceRunEnd(s, a) == j
    decreases j - a
  {
    if a < j {
      SpaceRunEndAt(s, a + 1, j);
    }
  }

  /** The word run from `j` ends where the first other character is. */
  lemma {:induction false} WordRunEndAt(s: string, j: nat, e: nat)
    requires j <= e <= |s| && (e == |s| || !IsWordChar(s[e])) && forall k :: j <= k < e ==> IsWordChar(s[k])
    ensures WordRunEnd(s, j) == e
    decreases e - j
  {
    if j < e {
      WordRunEndAt(s, j + 1, e);
    }
  }

  /** A match at or after `i` makes the scan from `i` find at least one name. */
  lemma {:induction false} FindAllComplete(s: string, kw: string, i: nat, p: nat, j: nat, e: nat)
    requires kw != [] && i <= p && MatchAt(s, kw, p, j, e)
    ensures FindAll(s, kw, i) != []
    decreases p - i
  {
    if OccursAt(s, kw, i) {
      var a := i + |kw|;
      var e1 := SpaceRunEnd(s, a);
      var e2 := WordRunEnd(s, e1);
      if i == p {
        SpaceNotWord(s[j]);
        SpaceRunEndAt(s, a, j);
        WordRunEndAt(s, j, e);
      } else if e1 == a || e2 == e1 {
        FindAllComplete(s, kw, i + 1, p, j, e);
      }
    } else {
      FindAllComplete(s, kw, i + 1, p, j, e);
    }
  }

  /**
   * `re.findall` finds nothing exactly when the text holds no keyword
   * followed by whitespace and a word character.
   */
  lemma FindAllEmpty(s: string, kw: string)
    requires kw != []
    ensures FindAll(s, kw, 0) == [] <==> !exists p: nat, j: nat, e: nat :: MatchAt(s, kw, p, j, e)
  {
    var r := FindAll(s, kw, 0);
    if r != [] {
      FindAllSound(s, kw, 0);
      assert CapturedFrom(s, kw, 0, r[0]);
      var p: nat, j: nat, e: nat :| MatchAt(s, kw, p, j, e) && r[0] == s[j..e];
    }
    if exists p: nat, j: nat, e: nat :: MatchAt(s, kw, p, j, e) {
      var p, j, e :| MatchAt(s, kw, p, j, e);
      FindAllComplete(s, kw, 0, p, j, e);
    }
  }

  /** `' '.join(stem.split('_'))` */
  function Words(stem: string): string {
    Join(Split(stem, "_"), " ")
  }

  /** `filename.stem` of a path: the last component without its suffix. */
  function StemOf(path: string): string {
    Stem(Basename(path))
  }

  /**
   * `generate_description`: for `.py` a `main` definition makes a script,
   * else classes make a module containing them, else any definition makes a
   * module with functions; `.sh` and `.R` are scripts; `.js` and `.ts` name
   * their classes or their functions; everything else, and a `.py`, `.js` or
   * `.ts` file with none of these, is "Code related to".
   */
  function GenerateDescription(content: string, path: string, ext: string): (r: string)
    ensures ext != ".js" && ext != ".ts" ==> EndsWith(r, " " + Words(StemOf(path)))
  {
    var words := Words(StemOf(path));
    var fallback := DefaultLead + words;
    EndsWithTail(DefaultLead, words);
    if ext == ".py" then
      PyDescription(FindAll(content, "def", 0), FindAll(content, "class", 0), words)
    else if ext == ".sh" then
      EndsWithTail("Shell script for ", words);
      "Shell script for " + words
    else if ext == ".js" || ext == ".ts" then
      var classes := FindAll(content, "class", 0);
      var functions := FindAll(content, "function", 0);
      if classes != [] then
        "JavaScript/TypeScript module with " + Join(classes, ", ") + " classes"
      else if functions != [] then "JavaScript/TypeScript module with utility functions"
      else fallback
    else if ext == ".R" then
      EndsWithTail("R script for ", words);
      "R script for " + words
    else fallback
  }

  const ScriptLead: string := "Script for "
  const ClassesLead: string := "Module containing "
  const FunctionsLead: string := "Module with functions for "
  const DefaultLead: string := "Code related to "

  /** The `.py` branch of `generate_description`, given the names after `def` and after `class`. */
  function PyDescription(defs: seq<string>, classes: seq<string>, words: string): (r: string)
    ensures EndsWith(r, " " + words)
  {
    if "main" in defs then
      EndsWithTail(ScriptLead, words);
      ScriptLead + words
    else if classes != [] then
      EndsWithTail(ClassesLead + Join(classes, ", ") + " classes for ", words);
      ClassesLead + Join(classes, ", ") + " classes for " + words
    else if defs != [] then
      EndsWithTail(FunctionsLead, words);
      FunctionsLead + words
    else
      EndsWithTail(DefaultLead, words);
      DefaultLead + words
  }

  /**
   * The kind of a `.py` description follows the precedence of the source:
   * `main` first, then classes, then any definition, then the default; the
   * description opens with exactly one of the four leads.
   */
  lemma PyDescriptionKind(defs: seq<string>, classes: seq<string>, words: string)
    ensures var d := PyDescription(defs, classes, words);
      && (StartsWith(d, ScriptLead) <==> "main" in defs)
      && (StartsWith(d, ClassesLead) <==> "main" !in defs && classes != [])
      && (StartsWith(d, FunctionsLead) <==> "main" !in defs && classes == [] && defs != [])
      && (StartsWith(d, DefaultLead) <==> "main" !in defs && classes == [] && defs == [])
  {
    var d := PyDescription(defs, classes, words);
    var lead := if "main" in defs then ScriptLead else if classes != [] then ClassesLead
      else if defs != [] then FunctionsLead else DefaultLead;
    var rest := if lead == ClassesLead then Join(classes, ", ") + " classes for " + words else words;
    assert d == lead + rest;
    LeadOnly(d, lead, rest, ScriptLead);
    LeadOnly(d, lead, rest, ClassesLead);
    LeadOnly(d, lead, rest, FunctionsLead);
    LeadOnly(d, lead, rest, DefaultLead);
  }

  /**
   * A text that opens with one lead opens with no other: two leads differ
   * in their first or eighth character.
   */
  lemma LeadOnly(d: string, lead: string, rest: string, other: string)
    requires d == lead + rest
    requires |lead| > 7 && |other| > 7
    requires lead == other || lead[0] != other[0] || lead[7] != other[7]
    ensures StartsWith(d, other) <==> other == lead
  {
    assert d[..|lead|] == lead;
  }

  /**
   * `' '.join(word.capitalize() for word in filename.stem.split('_'))`: the
   * file's words with each word capitalised, the same text up to case.
   */
  function ShortTitle(path: string): (r: string)
    ensures Lower(r) == Lower(Words(StemOf(path)))
    ensures |r| == |Words(StemOf(path))|
    ensures TitleCased(StemOf(path), r, true)
  {
    LowerJoinCapitalized(Split(StemOf(path), "_"));
    TitleOfSplit(StemOf(path));
    Join(CapitalizeAll(Split(StemOf(path), "_")), " ")
  }

  /**
   * `r` is `s` read character by character: each `_` becomes a space, the
   * first letter of each word (at the start when `start` holds, or after a
   * `_`) is upper-cased, and every other letter is lower-cased.
   */
  predicate TitleCased(s: string, r: string, start: bool) {
    |r| == |s| && forall k :: 0 <= k < |s| ==> r[k] == TitleCharAt(s, k, start)
  }

  /** The title character for position `k` of `s`. */
  function TitleCharAt(s: string, k: nat, start: bool): char
    requires k < |s|
  {
    if s[k] == '_' then ' '
    else if (if k == 0 then start else s[k - 1] == '_') then UpperChar(s[k])
    else LowerChar(s[k])
  }

  /**
   * What `capitalize` does to each word, read on the short title: each `_`
   * is a space, each character is the stem's up to case, the first letter
   * of a word is not lower-case and every other letter is not upper-case.
   */
  lemma ShortTitleCase(path: string)
    ensures var s, r := StemOf(path), ShortTitle(path);
      |r| == |s| &&
      forall k :: 0 <= k < |s| ==>
        && (s[k] == '_' ==> r[k] == ' ')
        && (s[k] != '_' ==> LowerChar(r[k]) == LowerChar(s[k]))
        && (s[k] != '_' && (k == 0 || s[k - 1] == '_') ==> !('a' <= r[k] <= 'z'))
        && (s[k] != '_' && k > 0 && s[k - 1] != '_' ==> !('A' <= r[k] <= 'Z'))
  {
    TitleCasedCase(StemOf(path), ShortTitle(path));
  }

  lemma TitleCasedCase(s: string, r: string)
    requires TitleCased(s, r, true)
    ensures forall k :: 0 <= k < |s| ==>
        && (s[k] == '_' ==> r[k] == ' ')
        && (s[k] != '_' ==> LowerChar(r[k]) == LowerChar(s[k]))
        && (s[k] != '_' && (k == 0 || s[k - 1] == '_') ==> !('a' <= r[k] <= 'z'))
        && (s[k] != '_' && k > 0 && s[k - 1] != '_' ==> !('A' <= r[k] <= 'Z'))
  {
    forall k | 0 <= k < |s|
      ensures s[k] != '_' ==> LowerChar(r[k]) == LowerChar(s[k])
      ensures s[k] != '_' && (k == 0 || s[k - 1] == '_') ==> !('a' <= r[k] <= 'z')
      ensures s[k] != '_' && k > 0 && s[k - 1] != '_' ==> !('A' <= r[k] <= 'Z')
    {
      assert r[k] == TitleCharAt(s, k, true);
      CharCase(s[k]);
    }
  }

  lemma CharCase(c: char)
    ensures LowerChar(UpperChar(c)) == LowerChar(c) && !('a' <= UpperChar(c) <= 'z')
    ensures LowerChar(LowerChar(c)) == LowerChar(c) && !('A' <= LowerChar(c) <= 'Z')
  {
  }

  /** The title written one character at a time, independently of `split` and `join`. */
  function TitleChars(s: string, start: bool): (r: string)
    ensures TitleCased(s, r, start)
  {
    if s == [] then []
    else
      var c := if s[0] == '_' then ' ' else if start then UpperChar(s[0]) else LowerChar(s[0]);
      var rest := TitleChars(s[1..], s[0] == '_');
      TitleCasedCons(s, start, rest);
      [c] + rest
  }

  lemma TitleCasedCons(s: string, start: bool, rest: string)
    requires s != [] && TitleCased(s[1..], rest, s[0] == '_')
    ensures var c := if s[0] == '_' then ' ' else if start then UpperChar(s[0]) else LowerChar(s[0]);
      TitleCased(s, [c] + rest, start)
  {
    var c := if s[0] == '_' then ' ' else if start then UpperChar(s[0]) else LowerChar(s[0]);
    var r := [c] + rest;
    forall k | 1 <= k < |s|
      ensures r[k] == TitleCharAt(s, k, start)
    {
      assert r[k] == rest[k - 1] && s[1..][k - 1] == s[k];
      if k >= 2 {
        assert s[1..][k - 2] == s[k - 1];
      }
      assert TitleCharAt(s[1..], k - 1, s[0] == '_') == TitleCharAt(s, k, start);
    }
    assert r[0] == c;
  }

  /** The capitalised words of `s.split('_')`, joined with spaces, are the character-level title. */
  lemma TitleOfSplit(s: string)
    ensures Join(CapitalizeAll(Split(s, "_")), " ") == TitleChars(s, true)
  {
    TitleOfSplitFrom(s);
  }

  /** From a word's start, every word of the split is capitalised. */
  predicate WordsTitled(s: string) {
    Join(CapitalizeAll(Split(s, "_")), " ") == TitleChars(s, true)
  }

  /** Inside a word, the rest of that word is lowered and the later words capitalised. */
  predicate RestTitled(s: string) {
    var parts := Split(s, "_");
    Join([Lower(parts[0])] + CapitalizeAll(parts[1..]), " ") == TitleChars(s, false)
  }

  /** Both readings of the split, by induction on `s`. */
  lemma {:induction false} TitleOfSplitFrom(s: string)
    ensures WordsTitled(s) && RestTitled(s)
    decreases |s|
  {
    if s == [] {
      assert Split(s, "_") == [""];
      assert Lower("") == "";
    } else {
      TitleOfSplitFrom(s[1..]);
      if s[0] == '_' {
        TitleAfterUnderscore(s);
      } else {
        TitleAfterLetter(s);
      }
    }
  }

  lemma TitleAfterUnderscore(s: string)
    requires s != [] && s[0] == '_' && WordsTitled(s[1..])
    ensures WordsTitled(s) && RestTitled(s)
  {
    var tail := Split(s[1..], "_");
    assert s[..1] == "_";
    assert Split(s, "_") == [""] + tail;
    assert CapitalizeAll([""] + tail) == [""] + CapitalizeAll(tail);
    JoinEmptyHead(CapitalizeAll(tail), " ");
    assert Lower("") == "";
    assert [Lower("")] + CapitalizeAll(tail) == [""] + CapitalizeAll(tail);
  }

  lemma TitleAfterLetter(s: string)
    requires s != [] && s[0] != '_' && RestTitled(s[1..])
    ensures WordsTitled(s) && RestTitled(s)
  {
    var tail := Split(s[1..], "_");
    var rest := CapitalizeAll(tail[1..]);
    SplitAtLetter(s);
    CapitalizeAllCons([s[0]] + tail[0], tail[1..]);
    CapitalizeCons(s[0], tail[0]);
    JoinConsChar(UpperChar(s[0]), Lower(tail[0]), rest, " ");
    LowerCons(s[0], tail[0]);
    JoinConsChar(LowerChar(s[0]), Lower(tail[0]), rest, " ");
  }

  /** A letter that is not the separator starts the first piece of the split. */
  lemma SplitAtLetter(s: string)
    requires s != [] && s[0] != '_'
    ensures var tail := Split(s[1..], "_");
      Split(s, "_") == [[s[0]] + tail[0]] + tail[1..]
  {
    assert s[..1] != "_" by { assert s[..1][0] == s[0]; }
  }

  lemma CapitalizeAllCons(w: string, ps: seq<string>)
    ensures CapitalizeAll([w] + ps) == [Capitalize(w)] + CapitalizeAll(ps)
  {
    assert forall k :: 1 <= k < |ps| + 1 ==> ([w] + ps)[k] == ps[k - 1];
  }

  lemma CapitalizeCons(c: char, w: string)
    ensures Capitalize([c] + w) == [UpperChar(c)] + Lower(w)
  {
    assert ([c] + w)[1..] == w;
  }

  lemma JoinConsChar(c: char, p: string, ps: seq<string>, sep: string)
    ensures Join([[c] + p] + ps, sep) == [c] + Join([p] + ps, sep)
  {
    if ps != [] {
      assert ([[c] + p] + ps)[1..] == ps;
      assert ([p] + ps)[1..] == ps;
    }
  }

  lemma JoinEmptyHead(ps: seq<string>, sep: string)
    requires ps != []
    ensures Join([""] + ps, sep) == sep + Join(ps, sep)
  {
    assert ([""] + ps)[1..] == ps;
  }

  lemma LowerCons(c: char, w: string)
    ensures Lower([c] + w) == [LowerChar(c)] + Lower(w)
  {
    assert forall k :: 1 <= k < |w| + 1 ==> ([c] + w)[k] == w[k - 1];
  }

  function CapitalizeAll(ws: seq<string>): (r: seq<string>)
    ensures |r| == |ws| && forall k :: 0 <= k < |ws| ==> r[k] == Capitalize(ws[k])
  {
    seq(|ws|, k requires 0 <= k < |ws| => Capitalize(ws[k]))
  }

  /** A file of no known kind gets the default description. */
  lemma DefaultDescription(content: string, path: string, ext: string)
    requires ext != ".py" && ext != ".sh" && ext != ".js" && ext != ".ts" && ext != ".R"
    ensures GenerateDescription(content, path, ext) == DefaultLead + Words(StemOf(path))
  {
  }

  lemma EndsWithTail(head: string, words: string)
    requires |head| > 0 && head[|head| - 1] == ' '
    ensures EndsWith(head + words, " " + words)
  {
    var s := head + words;
    assert s[|s| - |" " + words|..] == " " + words;
  }

  /** `lower` of a concatenation is the concatenation of the `lower`s. */
  lemma LowerConcat(a: string, b: string)
    ensures Lower(a + b) == Lower(a) + Lower(b)
  {
    assert forall k :: 0 <= k < |a + b| ==> Lower(a + b)[k] == (Lower(a) + Lower(b))[k];
  }

  /** Capitalising a word changes only the case of its letters. */
  lemma LowerCapitalize(w: string)
    ensures Lower(Capitalize(w)) == Lower(w)
  {
    if w != [] {
      assert forall k :: 0 <= k < |w| ==> Lower(Capitalize(w))[k] == Lower(w)[k];
    }
  }

  lemma {:induction false} LowerJoinCapitalized(ps: seq<string>)
    ensures Lower(Join(CapitalizeAll(ps), " ")) == Lower(Join(ps, " "))
    decreases |ps|
  {
    if |ps| == 1 {
      LowerCapitalize(ps[0]);
    } else if |ps| > 1 {
      var cs := CapitalizeAll(ps);
      assert cs[1..] == CapitalizeAll(ps[1..]);
      LowerJoinCapitalized(ps[1..]);
      LowerConcat(cs[0] + " ", Join(cs[1..], " "));
      LowerConcat(cs[0], " ");
      LowerConcat(ps[0] + " ", Join(ps[1..], " "));
      LowerConcat(ps[0], " ");
      LowerCapitalize(ps[0]);
    }
  }

  // ---------------------------------------------------------------------
  // HEADER_TEMPLATES, DEFAULT_HEADER
  // ---------------------------------------------------------------------

  /** The four values a header template is filled with. */
  datatype HeaderFields = HeaderFields(repoName: string, shortTitle: string, description: string, authors: string)

  const Project: string := Title + " (audt)]"

  /** One bracketed field line after the template's line prefix. */
  function FieldLine(lead: string, v: string): string {
    lead + "[" + v + "]\n"
  }

  function FieldLines(lead: string, f: HeaderFields): string {
    FieldLine(lead, f.repoName) + FieldLine(lead, f.shortTitle) +
    FieldLine(lead, f.description) + FieldLine(lead, f.authors)
  }

  /** The project line, the four field lines and the template's closing text. */
  function Banner(lead: string, f: HeaderFields, post: string): string {
    lead + Project + "\n" + FieldLines(lead, f) + post
  }

  /** `HEADER_TEMPLATES.get(ext, DEFAULT_HEADER).format(...)`: the header text for an extension. */
  function Render(ext: string, f: HeaderFields): (r: string)
    ensures Contains(r, "[" + f.repoName + "]") && Contains(r, "[" + f.shortTitle + "]")
    ensures Contains(r, "[" + f.description + "]") && Contains(r, "[" + f.authors + "]")
  {
    if ext == ".py" then
      BannerCarriesFields(TripleQuote + "\n", "", f, TripleQuote + "\n\n");
      TripleQuote + "\n" + Banner("", f, TripleQuote + "\n\n")
    else if ext == ".sh" then
      BannerCarriesFields(BashLine + "\n", "# ", f, "\n");
      BashLine + "\n" + Banner("# ", f, "\n")
    else if ext == ".js" || ext == ".ts" then
      BannerCarriesFields(DocOpen + "\n", " * ", f, " " + DocClose + "\n\n");
      DocOpen + "\n" + Banner(" * ", f, " " + DocClose + "\n\n")
    else if ext == ".R" then
      BannerCarriesFields("#\n", "# ", f, "#\n\n");
      "#\n" + Banner("# ", f, "#\n\n")
    else
      BannerCarriesFields("", "# ", f, "\n");
      assert "" + Banner("# ", f, "\n") == Banner("# ", f, "\n");
      Banner("# ", f, "\n")
  }

  /** Whatever opens and closes the banner, the header carries each field in its own brackets. */
  lemma BannerCarriesFields(open: string, lead: string, f: HeaderFields, post: string)
    ensures var h := open + Banner(lead, f, post);
      Contains(h, "[" + f.repoName + "]") && Contains(h, "[" + f.shortTitle + "]") &&
      Contains(h, "[" + f.description + "]") && Contains(h, "[" + f.authors + "]")
  {
    var l1, l2, l3, l4 := FieldLine(lead, f.repoName), FieldLine(lead, f.shortTitle),
      FieldLine(lead, f.description), FieldLine(lead, f.authors);
    FieldLineContains(lead, f.repoName);
    FieldLineContains(lead, f.shortTitle);
    FieldLineContains(lead, f.description);
    FieldLineContains(lead, f.authors);
    ContainsExtend(l1, "[" + f.repoName + "]", l2);
    ContainsExtend(l1 + l2, "[" + f.repoName + "]", l3);
    ContainsExtend(l1 + l2 + l3, "[" + f.repoName + "]", l4);
    ContainsExtend(l2, "[" + f.shortTitle + "]", l1);
    ContainsExtend(l1 + l2, "[" + f.shortTitle + "]", l3);
    ContainsExtend(l1 + l2 + l3, "[" + f.shortTitle + "]", l4);
    ContainsExtend(l3, "[" + f.description + "]", l1 + l2);
    ContainsExtend(l1 + l2 + l3, "[" + f.description + "]", l4);
    ContainsExtend(l4, "[" + f.authors + "]", l1 + l2 + l3);
    FieldInHeader(open, lead, f, post, "[" + f.repoName + "]");
    FieldInHeader(open, lead, f, post, "[" + f.shortTitle + "]");
    FieldInHeader(open, lead, f, post, "[" + f.description + "]");
    FieldInHeader(open, lead, f, post, "[" + f.authors + "]");
  }

  lemma FieldLineContains(lead: string, v: string)
    ensures Contains(FieldLine(lead, v), "[" + v + "]")
  {
    assert FieldLine(lead, v) == lead + ("[" + v + "]") + "\n";
    ContainsInfix(lead, "[" + v + "]", "\n");
  }

  lemma FieldInHeader(open: string, lead: string, f: HeaderFields, post: string, p: string)
    requires Contains(FieldLines(lead, f), p)
    ensures Contains(open + Banner(lead, f, post), p)
  {
    ContainsExtend(FieldLines(lead, f), p, lead + Project + "\n");
    ContainsExtend(lead + Project + "\n" + FieldLines(lead, f), p, post);
    ContainsExtend(Banner(lead, f, post), p, open);
  }

  // ---------------------------------------------------------------------
  // get_repo_name, get_author
  // ---------------------------------------------------------------------

  /** A commit author as git records it. */
  datatype Person = Person(name: string, email: string)

  /**
   * What the tool reads from the git repository: its working directory, the
   * URL of the `origin` remote if there is one, and for each file the author
   * of the commit that `iter_commits(paths=file, max_count=1, reverse=True)`
   * yields: git applies the limit before the reversal, so that is the most
   * recent commit touching the file.
   */
  datatype Repo = Repo(workingDir: string, originUrl: Option<string>, commitAuthor: map<string, Person>)

  const GitSuffix: string := ".git"

  /**
   * `get_repo_name`: without a repository the name of the current directory;
   * from the `origin` URL its last component without one `.git`; without
   * `origin` the name of the working directory's parent.
   */
  function RepoName(repo: Option<Repo>, cwd: string): (r: string)
    ensures '/' !in r
  {
    match repo
    case None =>
      BasenameSpec(cwd);
      Basename(cwd)
    case Some(rp) =>
      match rp.originUrl
      case None =>
        BasenameSpec(Dirname(rp.workingDir));
        Basename(Dirname(rp.workingDir))
      case Some(url) =>
        var name := Basename(url);
        BasenameSpec(url);
        if EndsWith(name, GitSuffix) then
          assert forall k :: 0 <= k < |name| - |GitSuffix| ==> name[..|name| - |GitSuffix|][k] == name[k];
          name[..|name| - |GitSuffix|]
        else name
  }

  /** The last component after a `/` is the base name. */
  lemma BasenameAfterSlash(dir: string, name: string)
    requires '/' !in name
    ensures Basename(dir + "/" + name) == name
  {
    var s := dir + "/" + name;
    var i := LastIndex(s, '/').value;
    LastIndexIsLast(s, '/');
    assert s[|dir|] == '/';
    assert forall k :: |dir| < k < |s| ==> s[k] == name[k - |dir| - 1];
    assert i == |dir|;
    assert s[|dir| + 1..] == name;
  }

  /** A remote URL `<anything>/<name>.git` or `<anything>/<name>` names the repository `<name>`. */
  lemma RepoNameFromUrl(dir: string, name: string, wd: string, authors: map<string, Person>, cwd: string)
    requires '/' !in name
    ensures RepoName(Some(Repo(wd, Some(dir + "/" + name + GitSuffix), authors)), cwd) == name
    ensures !EndsWith(name, GitSuffix) ==> RepoName(Some(Repo(wd, Some(dir + "/" + name), authors)), cwd) == name
  {
    assert dir + "/" + name + GitSuffix == dir + "/" + (name + GitSuffix);
    assert '/' !in name + GitSuffix;
    BasenameAfterSlash(dir, name + GitSuffix);
    var n := name + GitSuffix;
    assert n[|n| - |GitSuffix|..] == GitSuffix;
    assert n[..|n| - |GitSuffix|] == name;
    BasenameAfterSlash(dir, name);
  }

  const DefaultAuthor: string := "Test User (@testuser)"
  const UnknownAuthor: string := "Unknown"

  /**
   * `get_author`: the test default without a repository, "Unknown" when no
   * commit or no author name is found, and the author's name, followed by
   * `(@user)` when the e-mail contains `@github` and its text before the
   * first `@` is not empty.
   */
  function Author(repo: Option<Repo>, path: string): (r: string)
    ensures r != []
    ensures repo.Some? && path in repo.value.commitAuthor && repo.value.commitAuthor[path].name != [] ==>
      StartsWith(r, repo.value.commitAuthor[path].name)
  {
    match repo
    case None => DefaultAuthor
    case Some(rp) =>
      if path !in rp.commitAuthor || rp.commitAuthor[path].name == [] then UnknownAuthor
      else
        var p := rp.commitAuthor[path];
        var user := if Contains(p.email, "@github") then Split(p.email, "@")[0] else [];
        if user != [] then p.name + " (@" + user + ")" else p.name
  }

  /** `email.split('@')[0]` is the text before the first `@`. */
  lemma {:induction false} SplitFirstPiece(user: string, rest: string)
    requires '@' !in user
    ensures Split(user + "@" + rest, "@")[0] == user
    decreases |user|
  {
    var s := user + "@" + rest;
    if user == [] {
      assert s[..1] == "@";
    } else {
      assert s[..1] != "@" by { assert s[..1][0] == user[0]; }
      assert s[1..] == user[1..] + "@" + rest;
      SplitFirstPiece(user[1..], rest);
      assert user == [user[0]] + user[1..];
    }
  }

  /** A GitHub e-mail address adds the user name it starts with to the author's name. */
  lemma GithubAuthor(rp: Repo, path: string, name: string, user: string, domain: string)
    requires path in rp.commitAuthor && rp.commitAuthor[path] == Person(name, user + "@github" + domain)
    requires name != [] && user != [] && '@' !in user
    ensures Author(Some(rp), path) == name + " (@" + user + ")"
  {
    var email := user + "@github" + domain;
    ContainsInfix(user, "@github", domain);
    assert email == user + "@" + ("github" + domain);
    SplitFirstPiece(user, "github" + domain);
  }

  /** Any other known author is given by name alone, and an unnamed one is unknown. */
  lemma OtherAuthor(rp: Repo, path: string)
    requires path in rp.commitAuthor && !Contains(rp.commitAuthor[path].email, "@github")
    ensures Author(Some(rp), path) ==
      if rp.commitAuthor[path].name == [] then UnknownAuthor else rp.commitAuthor[path].name
  {
  }

  // ---------------------------------------------------------------------
  // add_header
  // ---------------------------------------------------------------------

  /** `Path(file_path).suffix.lower()` */
  function ExtOf(path: string): (r: string)
    ensures r != ".R"
  {
    var r := Lower(Suffix(Basename(path)));
    assert |r| != 2 || r[1] != 'R';
    r
  }

  const ShebangStart: string := "#!/"

  /** `content.split('\n', 1)`: the first line, and the rest after its newline (empty when there is none). */
  function FirstLine(content: string): (r: (string, string))
    ensures '\n' !in r.0
    ensures if '\n' in content then content == r.0 + "\n" + r.1 else r == (content, [])
  {
    match Find(content, "\n")
    case None =>
      forall k | 0 <= k < |content|
        ensures content[k] != '\n'
      {
        assert !OccursAt(content, "\n", k);
        assert content[k..k + 1] == [content[k]];
      }
      (content, [])
    case Some(j) =>
      forall k | 0 <= k < j
        ensures content[..j][k] != '\n'
      {
        assert !OccursAt(content, "\n", k);
        assert content[k..k + 1] == [content[k]];
      }
      assert content[j..j + 1] == "\n";
      assert content == content[..j] + "\n" + content[j + 1..];
      (content[..j], content[j + 1..])
  }

  /** A first line without a newline is the line `split('\n', 1)` finds. */
  lemma FirstLineOf(first: string, rest: string)
    requires '\n' !in first
    ensures FirstLine(first + "\n" + rest) == (first, rest)
  {
    var c := first + "\n" + rest;
    assert c[|first|] == '\n';
    var r := FirstLine(c);
    assert c[|r.0|] == '\n';
    assert forall k :: 0 <= k < |first| ==> c[k] == first[k];
    assert forall k :: 0 <= k < |r.0| ==> c[k] == r.0[k];
    assert |r.0| == |first|;
    assert r.0 == c[..|first|] == first;
    assert r.1 == c[|first| + 1..] == rest;
  }

  /**
   * The file text `add_header` writes: the header before the content, except
   * that a `.sh` file that starts with `#!/` keeps its own first line, and the
   * header follows it with every `#!/bin/bash` line removed.
   */
  function NewContent(content: string, ext: string, header: string): (r: string)
    ensures |r| >= |content|
    ensures ext == ".sh" && StartsWith(content, ShebangStart) ==> StartsWith(r, FirstLine(content).0 + "\n")
    ensures !(ext == ".sh" && StartsWith(content, ShebangStart)) ==> EndsWith(r, content)
  {
    if ext == ".sh" && StartsWith(content, ShebangStart) then
      var (first, rest) := FirstLine(content);
      first + "\n" + Replace(header, BashLine + "\n", "") + rest
    else header + content
  }

  /** `# [augmented urban data triangulation (audt)]` starts with the marker. */
  lemma MarkerOpensProject()
    ensures StartsWith("# " + Project, Marker)
    ensures '#' !in Marker[1..]
  {
    assert ("# " + Project)[..|Marker|] == Marker;
    assert Marker[1..] == " " + Title;
    assert '#' !in Title;
  }

  lemma BannerStartsWithMarker(f: HeaderFields, post: string)
    ensures StartsWith(Banner("# ", f, post), Marker)
  {
    MarkerOpensProject();
    StartsWithExtend("# " + Project, "\n", Marker);
    StartsWithExtend("# " + Project + "\n", FieldLines("# ", f), Marker);
    StartsWithExtend("# " + Project + "\n" + FieldLines("# ", f), post, Marker);
  }

  /** After the first-line substitution the `.sh` header starts with the marker. */
  lemma ShBodyStartsWithMarker(f: HeaderFields)
    ensures StartsWith(Replace(Render(".sh", f), BashLine + "\n", ""), Marker)
  {
    var pat := BashLine + "\n";
    var t := Banner("# ", f, "\n");
    BannerStartsWithMarker(f, "\n");
    ReplaceAtStart(pat, t, "");
    assert "" + Replace(t, pat, "") == Replace(t, pat, "");
    ReplaceKeepsMarker(t, pat);
  }

  /** A text that starts with the marker keeps it when `#!/bin/bash` lines are removed. */
  lemma ReplaceKeepsMarker(t: string, pat: string)
    requires pat == BashLine + "\n" && StartsWith(t, Marker)
    ensures StartsWith(Replace(t, pat, ""), Marker)
  {
    MarkerOpensProject();
    assert t[1] == Marker[1] == ' ';
    assert t[..|pat|] != pat by { assert t[..|pat|][1] == t[1]; }
    ReplaceSkipsFirst(t, pat, "");
    forall k | 0 <= k < 36
      ensures t[1..][k] != pat[0]
    {
      assert t[1..][k] == Marker[1..][k];
    }
    ReplaceKeepsPrefix(t[1..], pat, "", 36);
    assert Replace(t, pat, "")[..37] == [t[0]] + t[1..][..36];
    assert t[..37] == [t[0]] + t[1..][..36];
  }

  /**
   * The header after a kept first line, as `add_header` writes it: a `#!/`
   * first line, and the marker right after that line's newline.
   */
  predicate ShebangHeader(content: string) {
    StartsWith(content, ShebangStart) &&
    match Find(content, "\n")
    case None => false
    case Some(j) => OccursAt(content, Marker, j + 1)
  }

  lemma ShebangHeaderOf(first: string, body: string, rest: string)
    requires StartsWith(first, ShebangStart) && '\n' !in first && StartsWith(body, Marker)
    ensures ShebangHeader(first + "\n" + body + rest)
  {
    var s := first + "\n" + body + rest;
    assert s[..3] == first[..3];
    assert OccursAt(s, "\n", |first|);
    assert forall k :: 0 <= k < |first| ==> s[k] == first[k];
    forall k | 0 <= k < |first|
      ensures !OccursAt(s, "\n", k)
    {
      assert s[k..k + 1][0] == first[k];
    }
    assert s[|first| + 1..|first| + 1 + |Marker|] == body[..|Marker|];
  }

  /**
   * The header check `add_header` needs: `has_header`, or the shape it
   * writes itself into a `.sh` file whose first line is a shebang other
   * than `#!/bin/bash`.
   */
  predicate HeaderPresent(content: string, ext: string)
    ensures HeaderPresent(content, ext) != HasHeader(content, ext) ==> ext == ".sh" && StartsWith(content, ShebangStart)
  {
    HasHeader(content, ext) || (ext == ".sh" && ShebangHeader(content))
  }

  /**
   * A header that opens with a three-character delimiter and later holds
   * the closing delimiter matches `^open.*?close`.
   */
  lemma DelimitedHeader(opn: string, b: string, close: string, content: string)
    requires |opn| == 3 && Contains(b, close)
    ensures var s := opn + "\n" + b + content;
      StartsWith(s, opn) && Contains(s[3..], close)
  {
    var t := "\n" + b + content;
    ContainsExtend(b, close, "\n");
    ContainsExtend("\n" + b, close, content);
    var s := opn + t;
    assert s == opn + "\n" + b + content;
    assert s[..3] == opn;
    assert s[3..] == t;
  }

  /** What the closing text of a template holds, the whole banner holds. */
  lemma BannerContains(lead: string, f: HeaderFields, post: string, p: string)
    requires Contains(post, p)
    ensures Contains(Banner(lead, f, post), p)
  {
    ContainsExtend(post, p, lead + Project + "\n" + FieldLines(lead, f));
  }

  lemma PyHeaderFound(f: HeaderFields, content: string)
    ensures HasHeader(Render(".py", f) + content, ".py")
  {
    var post := TripleQuote + "\n\n";
    assert post[..3] == TripleQuote;
    ContainsOccurrence(post, TripleQuote, 0);
    BannerContains("", f, post, TripleQuote);
    DelimitedHeader(TripleQuote, Banner("", f, post), TripleQuote, content);
  }

  lemma DocHeaderFound(ext: string, f: HeaderFields, content: string)
    requires ext == ".js" || ext == ".ts"
    ensures HasHeader(Render(ext, f) + content, ext)
  {
    var post := " " + DocClose + "\n\n";
    assert post[1..3] == DocClose;
    ContainsOccurrence(post, DocClose, 1);
    BannerContains(" * ", f, post, DocClose);
    DelimitedHeader(DocOpen, Banner(" * ", f, post), DocClose, content);
    assert Render(ext, f) == DocOpen + "\n" + Banner(" * ", f, post);
  }

  lemma ShHeaderFound(f: HeaderFields, content: string)
    ensures HasHeader(Render(".sh", f) + content, ".sh")
  {
    var pat := BashLine + "\n";
    var t := Banner("# ", f, "\n");
    var s := Render(".sh", f) + content;
    assert StartsWith(pat, BashLine);
    StartsWithExtend(pat, t, pat);
    StartsWithExtend(pat + t, content, pat);
    StartsWithExtend(pat, t, BashLine);
    StartsWithExtend(pat + t, content, BashLine);
    BannerStartsWithMarker(f, "\n");
    StartsWithExtend(t, content, Marker);
    assert s == pat + (t + content);
    OccursAfter(pat, t + content, Marker);
    assert s[11] == pat[11] == '\n';
    assert s[12] == Marker[0];
    assert SpaceRunEnd(s, 12) == 12;
    assert SpaceRunEnd(s, 11) == 12;
  }

  lemma RHeaderFound(f: HeaderFields, content: string)
    ensures HasHeader(Render(".R", f) + content, ".R")
  {
    var open := "#\n";
    var t := Banner("# ", f, "#\n\n");
    var s := Render(".R", f) + content;
    StartsWithExtend(open, t, open);
    StartsWithExtend(open + t, content, open);
    BannerStartsWithMarker(f, "#\n\n");
    StartsWithExtend(t, content, Marker);
    assert s == open + (t + content);
    OccursAfter(open, t + content, Marker);
    assert s[..1] == "#" && s[1] == '\n';
    assert s[2] == Marker[0];
    assert SpaceRunEnd(s, 2) == 2;
    assert SpaceRunEnd(s, 1) == 2;
  }

  lemma DefaultHeaderFound(ext: string, f: HeaderFields, content: string)
    requires ext != ".py" && ext != ".sh" && ext != ".js" && ext != ".ts" && ext != ".R"
    ensures HasHeader(Render(ext, f) + content, ext)
  {
    BannerStartsWithMarker(f, "\n");
    StartsWithExtend(Banner("# ", f, "\n"), content, Marker);
  }

  lemma ShebangKeptHeaderFound(content: string, f: HeaderFields)
    requires StartsWith(content, ShebangStart)
    ensures ShebangHeader(NewContent(content, ".sh", Render(".sh", f)))
  {
    ShBodyStartsWithMarker(f);
    KeptLineHeader(content, Render(".sh", f));
  }

  /** A kept `#!/` line followed by a text that starts with the marker is a header. */
  lemma KeptLineHeader(content: string, h: string)
    requires StartsWith(content, ShebangStart) && StartsWith(Replace(h, BashLine + "\n", ""), Marker)
    ensures ShebangHeader(NewContent(content, ".sh", h))
  {
    var (first, rest) := FirstLine(content);
    KeptFirstLine(content, h);
    assert content[0] == '#' && content[1] == '!' && content[2] == '/';
    if '\n' in content {
      assert content[|first|] == '\n';
      assert content[..3] == (first + "\n" + rest)[..3];
    }
    assert |first| >= 3 && first[..3] == content[..3];
    ShebangHeaderOf(first, Replace(h, BashLine + "\n", ""), rest);
  }

  /**
   * Whatever a file held, once the header has been added the corrected
   * check finds it, so a second run leaves the file alone.
   */
  lemma AddHeaderIdempotent(content: string, ext: string, f: HeaderFields)
    ensures HeaderPresent(NewContent(content, ext, Render(ext, f)), ext)
  {
    if ext == ".sh" && StartsWith(content, ShebangStart) {
      ShebangKeptHeaderFound(content, f);
    } else if ext == ".py" {
      PyHeaderFound(f, content);
    } else if ext == ".sh" {
      ShHeaderFound(f, content);
    } else if ext == ".js" || ext == ".ts" {
      DocHeaderFound(ext, f, content);
    } else if ext == ".R" {
      RHeaderFound(f, content);
    } else {
      DefaultHeaderFound(ext, f, content);
    }
  }

  const ShLine: string := "#!/bin/sh"

  /**
   * As written, `has_header` misses the header `add_header` puts after a
   * `#!/bin/sh` line, so every run adds the header again; the corrected
   * check finds it.
   */
  lemma ShebangHeaderMissed(content: string, f: HeaderFields)
    requires StartsWith(content, ShLine + "\n")
    ensures !HasHeader(content, ".sh")
    ensures !HasHeader(NewContent(content, ".sh", Render(".sh", f)), ".sh")
    ensures HeaderPresent(NewContent(content, ".sh", Render(".sh", f)), ".sh")
  {
    ShLineFirst(content);
    ShebangKeptHeaderFound(content, f);
    ShLineKept(content, Render(".sh", f));
  }

  lemma ShLineFirst(content: string)
    requires StartsWith(content, ShLine + "\n")
    ensures StartsWith(content, ShebangStart) && !StartsWith(content, BashLine)
    ensures FirstLine(content) == (ShLine, content[|ShLine| + 1..])
  {
    assert content[..3] == (ShLine + "\n")[..3] == ShebangStart;
    assert content[7] == (ShLine + "\n")[7] == 's';
    assert content == ShLine + "\n" + content[|ShLine| + 1..];
    assert '\n' !in ShLine;
    FirstLineOf(ShLine, content[|ShLine| + 1..]);
  }

  /** Whatever header is added, such a file keeps its `#!/bin/sh` first line. */
  lemma ShLineKept(content: string, h: string)
    requires StartsWith(content, ShebangStart) && FirstLine(content).0 == ShLine
    ensures !StartsWith(NewContent(content, ".sh", h), BashLine)
  {
    KeptFirstLine(content, h);
    var s := NewContent(content, ".sh", h);
    assert s[7] == ShLine[7] == 's';
  }

  /** The text written after a kept first line. */
  lemma KeptFirstLine(content: string, header: string)
    requires StartsWith(content, ShebangStart)
    ensures NewContent(content, ".sh", header) ==
      FirstLine(content).0 + "\n" + Replace(header, BashLine + "\n", "") + FirstLine(content).1
  {
  }

  // ---------------------------------------------------------------------
  // add_header on the files, the directory walk and main
  // ---------------------------------------------------------------------

  /** The values `add_header` fills the template with. */
  function Fields(content: string, path: string, ext: string, repo: Option<Repo>, cwd: string): HeaderFields {
    HeaderFields(RepoName(repo, cwd), ShortTitle(path), GenerateDescription(content, path, ext), Author(repo, path))
  }

  /** The text `add_header` writes back to a file that lacks a header. */
  function Annotated(content: string, path: string, repo: Option<Repo>, cwd: string): string {
    var ext := ExtOf(path);
    NewContent(content, ext, Render(ext, Fields(content, path, ext, repo, cwd)))
  }

  /**
   * The header test `add_header` applies before it writes: `has_header` as
   * the source has it, or the corrected test, which also finds the header
   * written after a kept `#!/` first line.
   */
  datatype Check = AsWritten | Corrected

  predicate Detects(check: Check, content: string, ext: string) {
    match check
    case AsWritten => HasHeader(content, ext)
    case Corrected => HeaderPresent(content, ext)
  }

  /**
   * One `add_header` call on the files: `None` where opening the file fails,
   * `Some(false)` when the test finds a header, otherwise `Some(true)` and
   * the file rewritten.
   */
  function AddHeaderStep(check: Check, files: map<string, string>, path: string, repo: Option<Repo>, cwd: string)
    : (r: (map<string, string>, Option<bool>))
    ensures r.0.Keys == files.Keys
    ensures r.1.None? <==> path !in files
    ensures r.1 != Some(true) ==> r.0 == files
  {
    if path !in files then (files, None)
    else if Detects(check, files[path], ExtOf(path)) then (files, Some(false))
    else (files[path := Annotated(files[path], path, repo, cwd)], Some(true))
  }

  /** Adding a header always makes the file longer. */
  lemma AnnotatedLonger(content: string, ext: string, f: HeaderFields)
    ensures |NewContent(content, ext, Render(ext, f))| > |content|
  {
    if ext == ".sh" && StartsWith(content, ShebangStart) {
      ShBodyStartsWithMarker(f);
      KeptFirstLine(content, Render(".sh", f));
    }
  }

  /**
   * After one call the file has a header, and no other file has changed; the
   * file is left alone exactly when the test finds a header in it.
   */
  lemma AddHeaderStepSpec(check: Check, files: map<string, string>, path: string, repo: Option<Repo>, cwd: string)
    requires path in files
    ensures var (fs, r) := AddHeaderStep(check, files, path, repo, cwd);
      && r.Some? && fs.Keys == files.Keys && HeaderPresent(fs[path], ExtOf(path))
      && (r == Some(false) <==> Detects(check, files[path], ExtOf(path)))
      && (r == Some(false) <==> fs[path] == files[path])
      && (r == Some(false) <==> fs == files)
      && forall q :: q in files && q != path ==> fs[q] == files[q]
  {
    var ext := ExtOf(path);
    var content := files[path];
    if !Detects(check, content, ext) {
      var a := Annotated(content, path, repo, cwd);
      var f := Fields(content, path, ext, repo, cwd);
      AddHeaderIdempotent(content, ext, f);
      AnnotatedLonger(content, ext, f);
      UpdateOne(files, path, a);
    }
  }

  /** Storing a new text under one path changes that file and no other. */
  lemma UpdateOne(files: map<string, string>, path: string, text: string)
    requires path in files && text != files[path]
    ensures var fs := files[path := text];
      fs.Keys == files.Keys && fs != files && forall q :: q in files && q != path ==> fs[q] == files[q]
  {
    assert files[path := text][path] != files[path];
  }

  /** With the corrected test, a second call on the same file reports the header and changes nothing. */
  lemma AddHeaderTwice(check: Check, files: map<string, string>, path: string, repo: Option<Repo>, cwd: string)
    requires path in files
    ensures var fs := AddHeaderStep(check, files, path, repo, cwd).0;
      AddHeaderStep(Corrected, fs, path, repo, cwd) == (fs, Some(false))
  {
    AddHeaderStepSpec(check, files, path, repo, cwd);
  }

  /**
   * As written, a `.sh` file that starts with `#!/bin/sh` gets the header
   * again on every call: the second call reports a header added and
   * rewrites the file once more.
   */
  lemma ShebangStepRepeats(files: map<string, string>, path: string, repo: Option<Repo>, cwd: string)
    requires path in files && ExtOf(path) == ".sh" && StartsWith(files[path], ShLine + "\n")
    ensures var fs := AddHeaderStep(AsWritten, files, path, repo, cwd).0;
      var (gs, r) := AddHeaderStep(AsWritten, fs, path, repo, cwd);
      r == Some(true) && path in gs && gs[path] != fs[path]
  {
    var content := files[path];
    ShebangHeaderMissed(content, Fields(content, path, ".sh", repo, cwd));
    AddHeaderStepSpec(AsWritten, files, path, repo, cwd);
    var fs := AddHeaderStep(AsWritten, files, path, repo, cwd).0;
    AddHeaderStepSpec(AsWritten, fs, path, repo, cwd);
  }

  /** `file.endswith(supported_extensions)`: the template keys and `.md`, case as written. */
  predicate SupportedName(name: string) {
    EndsWith(name, ".py") || EndsWith(name, ".sh") || EndsWith(name, ".js") ||
    EndsWith(name, ".ts") || EndsWith(name, ".R") || EndsWith(name, ".md")
  }

  /** The walk skips every directory whose path contains `.git` or `.github`. */
  predicate SkippedRoot(root: string) {
    Contains(root, ".git") || Contains(root, ".github")
  }

  /** The paths the walk collects from one directory's file names. */
  function NamesUnder(root: string, names: seq<string>, excluded: set<string>): (r: seq<string>)
    ensures |r| <= |names|
  {
    if names == [] then []
    else
      var name := names[|names| - 1];
      NamesUnder(root, names[..|names| - 1], excluded) +
      (if SupportedName(name) && name !in excluded then [PathJoin(root, name)] else [])
  }

  /**
   * The paths `main` collects from `os.walk('.')` when no path is given on
   * the command line; the walk is its list of (directory, file names).
   */
  function WalkPaths(walk: seq<(string, seq<string>)>, excluded: set<string>): (r: seq<string>)
    ensures forall k :: 0 <= k < |r| ==> SupportedName(r[k])
  {
    if walk == [] then []
    else
      var (root, names) := walk[|walk| - 1];
      NamesUnderSupported(root, names, excluded);
      WalkPaths(walk[..|walk| - 1], excluded) + (if SkippedRoot(root) then [] else NamesUnder(root, names, excluded))
  }

  lemma EndsWithTrans(a: string, b: string, c: string)
    requires EndsWith(a, b) && EndsWith(b, c)
    ensures EndsWith(a, c)
  {
    assert a[|a| - |c|..] == a[|a| - |b|..][|b| - |c|..];
  }

  lemma {:induction false} NamesUnderSupported(root: string, names: seq<string>, excluded: set<string>)
    ensures forall k :: 0 <= k < |NamesUnder(root, names, excluded)| ==> SupportedName(NamesUnder(root, names, excluded)[k])
  {
    if names != [] {
      var prev := NamesUnder(root, names[..|names| - 1], excluded);
      NamesUnderSupported(root, names[..|names| - 1], excluded);
      var name := names[|names| - 1];
      var tail := if SupportedName(name) && name !in excluded then [PathJoin(root, name)] else [];
      if SupportedName(name) {
        JoinedSupported(root, name);
      }
      var r := NamesUnder(root, names, excluded);
      assert r == prev + tail;
      forall k | 0 <= k < |r|
        ensures SupportedName(r[k])
      {
        if k < |prev| {
          assert r[k] == prev[k];
        } else {
          assert r[k] == tail[k - |prev|];
        }
      }
    }
  }

  /** Joining a directory keeps the file's extension. */
  lemma JoinedSupported(root: string, name: string)
    requires SupportedName(name)
    ensures SupportedName(PathJoin(root, name))
  {
    var p := PathJoin(root, name);
    if EndsWith(name, ".py") { EndsWithTrans(p, name, ".py"); }
    else if EndsWith(name, ".sh") { EndsWithTrans(p, name, ".sh"); }
    else if EndsWith(name, ".js") { EndsWithTrans(p, name, ".js"); }
    else if EndsWith(name, ".ts") { EndsWithTrans(p, name, ".ts"); }
    else if EndsWith(name, ".R") { EndsWithTrans(p, name, ".R"); }
    else { EndsWithTrans(p, name, ".md"); }
  }

  /** `set(args.exclude)` with `README.md` always added. */
  function Excluded(exclude: seq<string>): (r: set<string>)
    ensures "README.md" in r && forall x :: x in exclude ==> x in r
  {
    (set x | x in exclude) + {"README.md"}
  }

  /** The command-line paths when there are any, otherwise the walk's. */
  function FilePaths(args: seq<string>, walk: seq<(string, seq<string>)>, excluded: set<string>): seq<string> {
    if args != [] then args else WalkPaths(walk, excluded)
  }

  /**
   * The processing loop of `main` from a given point on: paths whose base
   * name is excluded are skipped, the others go through `add_header`, and the
   * count of headers added grows by one per `True`; a file that cannot be
   * opened stops the run (`None`) with the files written so far.
   */
  function RunFrom(check: Check, files: map<string, string>, paths: seq<string>, excluded: set<string>,
                   repo: Option<Repo>, cwd: string, added: nat): (r: (map<string, string>, Option<nat>))
    ensures r.0.Keys == files.Keys
    ensures r.1.Some? ==> added <= r.1.value <= added + |paths|
    decreases |paths|
  {
    if paths == [] then (files, Some(added))
    else if Basename(paths[0]) in excluded then RunFrom(check, files, paths[1..], excluded, repo, cwd, added)
    else
      var (fs, r) := AddHeaderStep(check, files, paths[0], repo, cwd);
      match r
      case None => (fs, None)
      case Some(b) => RunFrom(check, fs, paths[1..], excluded, repo, cwd, if b then added + 1 else added)
  }

  /** A file in which the test finds a header is left exactly as it is by the rest of the run. */
  lemma {:induction false} RunKeepsHeaders(check: Check, files: map<string, string>, paths: seq<string>,
                                         excluded: set<string>, repo: Option<Repo>, cwd: string, added: nat, p: string)
    requires p in files && Detects(check, files[p], ExtOf(p))
    ensures var fs := RunFrom(check, files, paths, excluded, repo, cwd, added).0;
      p in fs && fs[p] == files[p]
    decreases |paths|
  {
    if paths != [] {
      if Basename(paths[0]) in excluded {
        RunKeepsHeaders(check, files, paths[1..], excluded, repo, cwd, added, p);
      } else {
        StepKeepsHeader(check, files, paths[0], repo, cwd, p);
        var (fs, r) := AddHeaderStep(check, files, paths[0], repo, cwd);
        if r.Some? {
          RunKeepsHeaders(check, fs, paths[1..], excluded, repo, cwd, if r.value then added + 1 else added, p);
        }
      }
    }
  }

  /** One call leaves a file in which the test finds a header as it is. */
  lemma StepKeepsHeader(check: Check, files: map<string, string>, path: string, repo: Option<Repo>, cwd: string,
                        p: string)
    requires p in files && Detects(check, files[p], ExtOf(p))
    ensures var fs := AddHeaderStep(check, files, path, repo, cwd).0;
      p in fs && fs[p] == files[p]
  {
    if path != p {
      StepOtherFile(check, files, path, repo, cwd, p);
    }
  }

  /** One call changes no file but its own. */
  lemma StepOtherFile(check: Check, files: map<string, string>, path: string, repo: Option<Repo>, cwd: string,
                      p: string)
    requires p in files && path != p
    ensures var fs := AddHeaderStep(check, files, path, repo, cwd).0;
      p in fs && fs[p] == files[p]
  {
  }

  /** A file that has a header still has one after the rest of the run, whichever the test. */
  lemma {:induction false} RunKeepsPresent(check: Check, files: map<string, string>, paths: seq<string>,
                                         excluded: set<string>, repo: Option<Repo>, cwd: string, added: nat, p: string)
    requires p in files && HeaderPresent(files[p], ExtOf(p))
    ensures var fs := RunFrom(check, files, paths, excluded, repo, cwd, added).0;
      p in fs && HeaderPresent(fs[p], ExtOf(p))
    decreases |paths|
  {
    if paths != [] {
      if Basename(paths[0]) in excluded {
        RunKeepsPresent(check, files, paths[1..], excluded, repo, cwd, added, p);
      } else {
        if paths[0] == p {
          AddHeaderStepSpec(check, files, p, repo, cwd);
        } else {
          StepOtherFile(check, files, paths[0], repo, cwd, p);
        }
        var (fs, r) := AddHeaderStep(check, files, paths[0], repo, cwd);
        if r.Some? {
          RunKeepsPresent(check, fs, paths[1..], excluded, repo, cwd, if r.value then added + 1 else added, p);
        }
      }
    }
  }

  /** After a complete run every path it did not skip holds a file with a header. */
  lemma {:induction false} RunLeavesHeaders(check: Check, files: map<string, string>, paths: seq<string>,
                                          excluded: set<string>, repo: Option<Repo>, cwd: string, added: nat)
    requires RunFrom(check, files, paths, excluded, repo, cwd, added).1.Some?
    ensures var fs := RunFrom(check, files, paths, excluded, repo, cwd, added).0;
      forall k :: 0 <= k < |paths| && Basename(paths[k]) !in excluded ==>
        paths[k] in fs && HeaderPresent(fs[paths[k]], ExtOf(paths[k]))
    decreases |paths|
  {
    if paths != [] {
      var tail := paths[1..];
      if Basename(paths[0]) in excluded {
        RunLeavesHeaders(check, files, tail, excluded, repo, cwd, added);
      } else {
        var (fs, r) := AddHeaderStep(check, files, paths[0], repo, cwd);
        AddHeaderStepSpec(check, files, paths[0], repo, cwd);
        var next := if r.value then added + 1 else added;
        RunLeavesHeaders(check, fs, tail, excluded, repo, cwd, next);
        RunKeepsPresent(check, fs, tail, excluded, repo, cwd, next, paths[0]);
      }
      assert forall k :: 1 <= k < |paths| ==> paths[k] == tail[k - 1];
    }
  }

  /** A run over files in which the test finds every header adds none and changes nothing. */
  lemma {:induction false} RunOverHeaders(check: Check, files: map<string, string>, paths: seq<string>,
                                        excluded: set<string>, repo: Option<Repo>, cwd: string, added: nat)
    requires forall k :: 0 <= k < |paths| && Basename(paths[k]) !in excluded ==>
      paths[k] in files && Detects(check, files[paths[k]], ExtOf(paths[k]))
    ensures RunFrom(check, files, paths, excluded, repo, cwd, added) == (files, Some(added))
    decreases |paths|
  {
    if paths != [] {
      assert forall k :: 1 <= k < |paths| ==> paths[k] == paths[1..][k - 1];
      RunOverHeaders(check, files, paths[1..], excluded, repo, cwd, added);
    }
  }

  /**
   * With the corrected test, running the tool a second time adds no header
   * and leaves every file as the first run left it.
   */
  lemma RerunAddsNothing(check: Check, files: map<string, string>, paths: seq<string>, excluded: set<string>,
                         repo: Option<Repo>, cwd: string)
    requires RunFrom(check, files, paths, excluded, repo, cwd, 0).1.Some?
    ensures var fs := RunFrom(check, files, paths, excluded, repo, cwd, 0).0;
      RunFrom(Corrected, fs, paths, excluded, repo, cwd, 0) == (fs, Some(0))
  {
    RunLeavesHeaders(check, files, paths, excluded, repo, cwd, 0);
    RunOverHeaders(Corrected, RunFrom(check, files, paths, excluded, repo, cwd, 0).0, paths, excluded, repo, cwd, 0);
  }

  /**
   * As written, running the tool again over a `.sh` file that starts with
   * `#!/bin/sh` adds its header once more.
   */
  lemma ShebangRerunAddsAgain(files: map<string, string>, path: string, excluded: set<string>,
                              repo: Option<Repo>, cwd: string)
    requires path in files && ExtOf(path) == ".sh" && StartsWith(files[path], ShLine + "\n")
    requires Basename(path) !in excluded
    ensures var fs := RunFrom(AsWritten, files, [path], excluded, repo, cwd, 0).0;
      RunFrom(AsWritten, fs, [path], excluded, repo, cwd, 0).1 == Some(1)
  {
    ShebangStepRepeats(files, path, repo, cwd);
    assert [path][1..] == [];
  }

  /** The files of the working tree, which `add_header` reads and rewrites. */
  class Workspace {
    var files: map<string, string>

    constructor(initial: map<string, string>)
      ensures files == initial
    {
      files := initial;
    }

    /** `add_header(file_path, repo)` */
    method AddHeader(path: string, repo: Option<Repo>, cwd: string) returns (r: Option<bool>)
      modifies this
      ensures (files, r) == AddHeaderStep(AsWritten, old(files), path, repo, cwd)
    {
      if path !in files {
        return None;
      }
      var content := files[path];
      var ext := ExtOf(path);
      if HasHeader(content, ext) {
        return Some(false);
      }
      var header := Render(ext, Fields(content, path, ext, repo, cwd));
      files := files[path := NewContent(content, ext, header)];
      return Some(true);
    }

    /**
     * `main`: the paths to process, then `add_header` on each one whose
     * base name is not excluded; the result is the number of paths and the
     * number of headers added, or `None` when a file could not be opened.
     */
    method Run(args: seq<string>, exclude: seq<string>, walk: seq<(string, seq<string>)>,
               repo: Option<Repo>, cwd: string) returns (r: Option<(nat, nat)>)
      modifies this
      ensures var paths := FilePaths(args, walk, Excluded(exclude));
        var (fs, added) := RunFrom(AsWritten, old(files), paths, Excluded(exclude), repo, cwd, 0);
        files == fs && (r.Some? <==> added.Some?) && (r.Some? ==> r.value == (|paths|, added.value))
    {
      var excluded := Excluded(exclude);
      var paths: seq<string>;
      if args != [] {
        paths := args;
      } else {
        paths := CollectPaths(walk, excluded);
      }
      var added: nat := 0;
      var i := 0;
      while i < |paths|
        invariant 0 <= i <= |paths|
        invariant RunFrom(AsWritten, files, paths[i..], excluded, repo, cwd, added) ==
          RunFrom(AsWritten, old(files), paths, excluded, repo, cwd, 0)
      {
        var stopped;
        stopped, added := RunNext(paths[i..], excluded, repo, cwd, added);
        if stopped {
          return None;
        }
        assert paths[i..][1..] == paths[i + 1..];
        i := i + 1;
      }
      r := Some((|paths|, added));
    }

    /** One pass of the loop of `main`: the first path is skipped or goes through `add_header`. */
    method RunNext(paths: seq<string>, excluded: set<string>, repo: Option<Repo>, cwd: string, added: nat)
      returns (stopped: bool, added': nat)
      requires paths != []
      modifies this
      ensures stopped ==> RunFrom(AsWritten, old(files), paths, excluded, repo, cwd, added) == (files, None)
      ensures !stopped ==>
        RunFrom(AsWritten, old(files), paths, excluded, repo, cwd, added) ==
        RunFrom(AsWritten, files, paths[1..], excluded, repo, cwd, added')
    {
      stopped, added' := false, added;
      if Basename(paths[0]) !in excluded {
        var ok := AddHeader(paths[0], repo, cwd);
        if ok.None? {
          stopped := true;
        } else if ok.value {
          added' := added + 1;
        }
      }
    }
  }

  /** The walk of `main` as the nested loop it is. */
  method CollectPaths(walk: seq<(string, seq<string>)>, excluded: set<string>) returns (paths: seq<string>)
    ensures paths == WalkPaths(walk, excluded)
  {
    paths := [];
    var i := 0;
    while i < |walk|
      invariant 0 <= i <= |walk|
      invariant paths == WalkPaths(walk[..i], excluded)
    {
      var (root, names) := walk[i];
      assert walk[..i + 1][..i] == walk[..i];
      if !SkippedRoot(root) {
        var found := CollectNames(root, names, excluded);
        paths := paths + found;
      }
      i := i + 1;
    }
    assert walk[..|walk|] == walk;
  }

  /** The inner loop of the walk over one directory's file names. */
  method CollectNames(root: string, names: seq<string>, excluded: set<string>) returns (found: seq<string>)
    ensures found == NamesUnder(root, names, excluded)
  {
    found := [];
    var j := 0;
    while j < |names|
      invariant 0 <= j <= |names|
      invariant found == NamesUnder(root, names[..j], excluded)
    {
      var name := names[j];
      assert names[..j + 1][..j] == names[..j];
      if SupportedName(name) && name !in excluded {
        found := found + [PathJoin(root, name)];
      }
      j := j + 1;
    }
    assert names[..|names|] == names;
  }
}
