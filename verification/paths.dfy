/**
 * The POSIX path helpers the tools use: `os.path.basename`,
 * `os.path.dirname`, `os.path.join`, and pathlib's `name`, `suffix` and `stem`.
 */
module Paths {
  import opened Wrappers
  import opened Strings

  /** The index of the last `c` in `s`, as `str.rfind` reports it. */
  function LastIndex(s: string, c: char): (r: Option<nat>)
    ensures r.Some? ==> r.value < |s| && s[r.value] == c
    ensures r.None? <==> c !in s
  {
    if s == [] then None
    else if s[|s| - 1] == c then Some(|s| - 1)
    else
      assert s == s[..|s| - 1] + [s[|s| - 1]];
      LastIndex(s[..|s| - 1], c)
  }

  /** No `c` follows the one `LastIndex` reports. */
  lemma {:induction false} LastIndexIsLast(s: string, c: char)
    ensures var r := LastIndex(s, c);
      r.Some? ==> forall k :: r.value < k < |s| ==> s[k] != c
    decreases |s|
  {
    if s != [] && s[|s| - 1] != c {
      LastIndexIsLast(s[..|s| - 1], c);
    }
  }

  /** `os.path.basename`: the text after the last `/`. */
  function Basename(p: string): (r: string)
    ensures '/' !in p ==> r == p
  {
    match LastIndex(p, '/')
    case None => p
    case Some(i) => p[i + 1..]
  }

  /** The base name is the slash-free end of the path, and the whole path exactly when it has no slash. */
  lemma BasenameSpec(p: string)
    ensures var r := Basename(p);
      '/' !in r && EndsWith(p, r) && (r == p <==> '/' !in p)
  {
    LastIndexIsLast(p, '/');
    match LastIndex(p, '/')
    case None =>
    case Some(i) =>
      var r := p[i + 1..];
      assert forall k :: 0 <= k < |r| ==> r[k] == p[i + 1 + k];
      assert |r| < |p|;
  }

  /** Drops the slashes that end `s`. */
  function TrimSlashes(s: string): (r: string)
    ensures StartsWith(s, r) && (r == [] || r[|r| - 1] != '/')
    ensures forall k :: |r| <= k < |s| ==> s[k] == '/'
  {
    if s == [] || s[|s| - 1] != '/' then s
    else TrimSlashes(s[..|s| - 1])
  }

  /** `os.path.dirname`: the text before the last `/`, without its trailing slashes unless it is all slashes. */
  function Dirname(p: string): (r: string)
    ensures StartsWith(p, r)
  {
    var head := match LastIndex(p, '/') case None => [] case Some(i) => p[..i + 1];
    var trimmed := TrimSlashes(head);
    if trimmed == [] then head else trimmed
  }

  /** `os.path.join(root, name)` for a relative `name`. */
  function PathJoin(root: string, name: string): (r: string)
    ensures EndsWith(r, name)
  {
    if root == [] || root[|root| - 1] == '/' then root + name else root + "/" + name
  }

  /** Where pathlib's suffix starts: a last dot that is neither the first nor the last character. */
  function SuffixStart(name: string): (r: Option<nat>)
    ensures r.Some? ==> 0 < r.value < |name| - 1 && name[r.value] == '.'
  {
    match LastIndex(name, '.')
    case None => None
    case Some(i) => if 0 < i < |name| - 1 then Some(i) else None
  }

  /** `PurePath(name).suffix`: empty, or a dot followed by at least one character. */
  function Suffix(name: string): (r: string)
    ensures r == [] || (|r| >= 2 && r[0] == '.')
  {
    match SuffixStart(name)
    case None => []
    case Some(i) => name[i..]
  }

  /** The suffix holds no dot after its first character. */
  lemma SuffixSpec(name: string)
    ensures var r := Suffix(name);
      forall k :: 1 <= k < |r| ==> r[k] != '.'
  {
    LastIndexIsLast(name, '.');
  }

  /** `PurePath(name).stem`: the name without its suffix. */
  function Stem(name: string): (r: string)
    ensures r != [] || name == []
  {
    match SuffixStart(name)
    case None => name
    case Some(i) => name[..i]
  }

  /** The stem and the suffix make up the name again. */
  lemma StemSuffix(name: string)
    ensures Stem(name) + Suffix(name) == name
  {
    match SuffixStart(name)
    case None =>
    case Some(i) => assert name == name[..i] + name[i..];
  }
}
