/** String helpers shared by the conformance runner's components: the Python
    `str.startswith`, `str.endswith` and substring `in` tests over `seq<char>`. */
module Text {

  /** `s.startswith(prefix)` */
  predicate StartsWith(s: string, prefix: string) {
    |prefix| <= |s| && s[..|prefix|] == prefix
  }

  /** `s.endswith(suffix)` */
  predicate EndsWith(s: string, suffix: string) {
    |suffix| <= |s| && s[|s| - |suffix|..] == suffix
  }

  /** `pat` occurs in `s` starting at index `i`. */
  predicate OccursAt(s: string, pat: string, i: nat) {
    i + |pat| <= |s| && s[i..i + |pat|] == pat
  }

  /** `pat in s` */
  predicate Contains(s: string, pat: string) {
    exists i: nat :: i <= |s| && OccursAt(s, pat, i)
  }

  /** A prefix of `s` starting at `k` is an occurrence at `k`. */
  lemma StartsWithOccurs(s: string, pat: string, k: nat)
    requires k <= |s| && StartsWith(s[k..], pat)
    ensures OccursAt(s, pat, k)
  {
    assert s[k..][..|pat|] == s[k..k + |pat|];
  }
}
