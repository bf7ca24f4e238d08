/** Character-sequence primitives shared by both services: prefix and suffix
    tests and the first/last occurrence of a pattern (JavaScript's
    `indexOf`/`lastIndexOf`, and the leftmost match that `re.split`, `grep`
    and `sed` look for when the pattern is a literal). */
module Strings {

  predicate StartsWith(s: string, prefix: string) {
    |prefix| <= |s| && s[..|prefix|] == prefix
  }

  predicate EndsWith(s: string, suffix: string) {
    |suffix| <= |s| && s[|s| - |suffix|..] == suffix
  }

  /** `p` occurs in `s` starting at index `j`. */
  predicate OccursAt(s: string, p: string, j: int) {
    0 <= j && j + |p| <= |s| && s[j..j + |p|] == p
  }

  /** Index of the first occurrence of `p` in `s`, or -1 when there is none
      (JavaScript `s.indexOf(p)`). */
  function Find(s: string, p: string): (r: int)
    ensures -1 <= r <= |s|
    ensures r >= 0 ==> OccursAt(s, p, r)
    ensures forall j :: 0 <= j && (r < 0 || j < r) ==> !OccursAt(s, p, j)
  {
    FindFrom(s, p, 0)
  }

  /** The first occurrence of `p` in `s` at an index `i` or later. */
  function FindFrom(s: string, p: string, i: nat): (r: int)
    ensures r == -1 || (i <= r <= |s| && OccursAt(s, p, r))
    ensures forall j :: i <= j && (r < 0 || j < r) ==> !OccursAt(s, p, j)
    decreases |s| - i
  {
    if |s| < i + |p| then -1
    else if s[i..i + |p|] == p then i
    else FindFrom(s, p, i + 1)
  }

  /** Index of the last occurrence of `p` in `s`, or -1 when there is none
      (JavaScript `s.lastIndexOf(p)`). */
  function FindLast(s: string, p: string): (r: int)
    ensures -1 <= r <= |s|
    ensures r >= 0 ==> OccursAt(s, p, r)
    ensures forall j :: (r < j || r < 0) ==> !OccursAt(s, p, j)
  {
    FindLastUpTo(s, p, |s| - |p|)
  }

  /** The last occurrence of `p` in `s` at an index `i` or earlier. */
  function FindLastUpTo(s: string, p: string, i: int): (r: int)
    requires i <= |s| - |p|
    ensures r == -1 || (0 <= r <= i && OccursAt(s, p, r))
    ensures forall j :: r < j <= i ==> !OccursAt(s, p, j)
    decreases i + 1
  {
    if i < 0 then -1
    else if s[i..i + |p|] == p then i
    else FindLastUpTo(s, p, i - 1)
  }

  /** `p` occurs somewhere in `s` (`grep -q p`, Python `p in s`). */
  predicate Contains(s: string, p: string) {
    Find(s, p) >= 0
  }

  /** `Find` is decided by the text up to the end of the match it finds. */
  lemma FindPrefixAgrees(s: string, t: string, p: string, m: nat)
    requires m <= |s| && m <= |t| && s[..m] == t[..m]
    requires 0 <= Find(s, p) && Find(s, p) + |p| <= m
    ensures Find(t, p) == Find(s, p)
  {
    var k := Find(s, p);
    SlicesAgree(s, t, m, k, k + |p|);
    assert OccursAt(t, p, k);
    forall j | 0 <= j < k ensures !OccursAt(t, p, j) {
      assert !OccursAt(s, p, j);
      SlicesAgree(s, t, m, j, j + |p|);
    }
  }

  lemma SlicesAgree(s: string, t: string, m: nat, a: nat, b: nat)
    requires m <= |s| && m <= |t| && s[..m] == t[..m] && a <= b <= m
    ensures s[a..b] == t[a..b]
  {
    assert forall i | a <= i < b :: s[i] == s[..m][i] == t[..m][i] == t[i];
  }
}
