/** The `Html` backend's processor. Before compiling, it rewrites the source so
    that every `include ` directive at the start of a line reads
    `include cases/`, which lets includes resolve from the directory the tests
    are run in. The source does this with the regular expression
    `((^|\n)\s*include )(?!cases/)` and the replacement `\1cases/`, and only
    when `include` occurs in the source at all.

    The regular expression is modelled directly. A scan of the source carries
    one flag that says whether the prefix `(^|\n)\s*` can end at the current
    position. The flag is set at the start of the text and after a newline, any
    other whitespace character keeps it, and every other character clears it.
    Wherever the flag is set and `include ` follows, not itself followed by
    `cases/`, the text `cases/` is inserted after `include `. Matches of
    `re.sub` do not overlap, but this never hides a later match. A match ends
    with `include `, so the `\n` that a later match needs comes after that
    match. */
module HtmlBackend {
  import opened Text
  import opened Backends

  const IncludeKeyword: string := "include"
  const IncludeDirective: string := "include "
  const CasesDir: string := "cases/"

  /** Python 3's `\s` for `str` patterns: the characters `str.isspace()` accepts. */
  predicate IsSpace(c: char) {
    c == ' ' || c == '\t' || c == '\n' || c == '\r' || c == '\U{0b}' || c == '\U{0c}' ||
    ('\U{1c}' <= c <= '\U{1f}') || c == '\U{85}' || c == '\U{a0}' || c == '\U{1680}' ||
    ('\U{2000}' <= c <= '\U{200a}') || c == '\U{2028}' || c == '\U{2029}' ||
    c == '\U{202f}' || c == '\U{205f}' || c == '\U{3000}'
  }

  /** The flag after reading `c`. */
  function Next(atLineStart: bool, c: char): bool {
    c == '\n' || (atLineStart && IsSpace(c))
  }

  /** The flag after reading all of `w`. */
  function StateAfter(atLineStart: bool, w: string): bool
    decreases |w|
  {
    if w == [] then atLineStart else StateAfter(Next(atLineStart, w[0]), w[1..])
  }

  /** The substitution over the rest `s` of the text, the flag being `atLineStart`. */
  function RewriteFrom(s: string, atLineStart: bool): string
    decreases |s|
  {
    if s == [] then []
    else if atLineStart && StartsWith(s, IncludeDirective) && !StartsWith(s[|IncludeDirective|..], CasesDir) then
      IncludeDirective + CasesDir + RewriteFrom(s[|IncludeDirective|..], false)
    else [s[0]] + RewriteFrom(s[1..], Next(atLineStart, s[0]))
  }

  /** `re.sub(r'((^|\n)\s*include )(?!cases/)', '\\1cases/', src)` */
  function RewriteIncludes(src: string): string {
    RewriteFrom(src, true)
  }

  /** The source that `html_process` hands to the compiler. */
  function HtmlSource(src: string): string {
    if Contains(src, IncludeKeyword) then RewriteIncludes(src) else src
  }

  /** `html_process`: the compiler behind it is a parameter. */
  function HtmlProcess(compile: string -> Rendered): Processor {
    (src: string, filename: string) => compile(HtmlSource(src))
  }

  /** The regular expression's prefix `(^|\n)\s*` can end at index `k` of `s`:
      all of `s[..k]` is whitespace, or a newline comes before `k` with only
      whitespace between it and `k`. */
  ghost predicate LineInitial(s: string, k: nat)
    requires k <= |s|
  {
    SpacesBetween(s, -1, k) || exists p :: 0 <= p < k && s[p] == '\n' && SpacesBetween(s, p, k)
  }

  /** Every character strictly between indices `p` and `k` is whitespace. */
  ghost predicate SpacesBetween(s: string, p: int, k: nat)
    requires k <= |s|
  {
    forall j :: p < j < k && 0 <= j ==> IsSpace(s[j])
  }

  /** Every `include ` at a position where the flag is set is followed by `cases/`. */
  ghost predicate IncludesPrefixed(s: string, atLineStart: bool) {
    forall k :: 0 <= k <= |s| && StateAfter(atLineStart, s[..k]) && StartsWith(s[k..], IncludeDirective) ==>
      StartsWith(s[k + |IncludeDirective|..], CasesDir)
  }

  lemma {:induction false} StateAfterConcat(atLineStart: bool, a: string, b: string)
    ensures StateAfter(atLineStart, a + b) == StateAfter(StateAfter(atLineStart, a), b)
    decreases |a|
  {
    if a == [] {
      assert a + b == b;
    } else {
      assert (a + b)[1..] == a[1..] + b;
      StateAfterConcat(Next(atLineStart, a[0]), a[1..], b);
    }
  }

  lemma {:induction false} StateAfterNoNewline(w: string)
    requires '\n' !in w
    ensures !StateAfter(false, w)
    decreases |w|
  {
    if w != [] {
      StateAfterNoNewline(w[1..]);
    }
  }

  lemma StateAfterCons(atLineStart: bool, c: char, w: string)
    ensures StateAfter(atLineStart, [c] + w) == StateAfter(Next(atLineStart, c), w)
  {
    assert ([c] + w)[1..] == w;
  }

  /** The flag is exactly the regular expression's line-start condition. */
  lemma {:induction false} StateAfterIsLineInitial(s: string, k: nat)
    requires k <= |s|
    ensures StateAfter(true, s[..k]) <==> LineInitial(s, k)
  {
    if k > 0 {
      StateAfterIsLineInitial(s, k - 1);
      var c := s[k - 1];
      assert s[..k] == s[..k - 1] + [c];
      StateAfterConcat(true, s[..k - 1], [c]);
      StateAfterCons(StateAfter(true, s[..k - 1]), c, []);
      assert [c] + [] == [c];
      LineInitialStep(s, k);
    }
  }

  lemma LineInitialStep(s: string, k: nat)
    requires 0 < k <= |s|
    ensures LineInitial(s, k) <==> Next(LineInitial(s, k - 1), s[k - 1])
  {
    var c := s[k - 1];
    if c == '\n' {
      assert SpacesBetween(s, k - 1, k);
    } else {
      if LineInitial(s, k) {
        if SpacesBetween(s, -1, k) {
          assert SpacesBetween(s, -1, k - 1);
        } else {
          var p :| 0 <= p < k && s[p] == '\n' && SpacesBetween(s, p, k);
          assert p != k - 1;
          assert SpacesBetween(s, p, k - 1);
        }
        assert IsSpace(c) && LineInitial(s, k - 1);
      }
      if IsSpace(c) && LineInitial(s, k - 1) {
        if !SpacesBetween(s, -1, k - 1) {
          var p :| 0 <= p < k - 1 && s[p] == '\n' && SpacesBetween(s, p, k - 1);
          assert SpacesBetween(s, p, k);
        }
      }
    }
  }

  lemma StartsWithCons(c: char, x: string, w: string)
    requires w != []
    ensures StartsWith([c] + x, w) <==> c == w[0] && StartsWith(x, w[1..])
  {
    if |w| <= |x| + 1 {
      assert ([c] + x)[..|w|] == [c] + x[..|w| - 1];
      if c == w[0] && StartsWith(x, w[1..]) {
        assert w == [w[0]] + w[1..];
      }
      if StartsWith([c] + x, w) {
        assert w[1..] == ([c] + x)[..|w|][1..];
      }
    }
  }

  /** With the flag clear, the rewrite keeps any newline-free prefix. */
  lemma {:induction false} RewriteClearedStartsWith(r: string, w: string)
    requires '\n' !in w
    ensures StartsWith(RewriteFrom(r, false), w) <==> StartsWith(r, w)
    decreases |w|
  {
    if w != [] && r != [] {
      var rest := RewriteFrom(r[1..], Next(false, r[0]));
      assert RewriteFrom(r, false) == [r[0]] + rest;
      StartsWithCons(r[0], rest, w);
      StartsWithCons(r[0], r[1..], w);
      assert r == [r[0]] + r[1..];
      if r[0] == w[0] {
        assert '\n' !in w[1..];
        RewriteClearedStartsWith(r[1..], w[1..]);
      }
    }
  }

  /** After the rewrite, every `include ` where the flag is set reads `include cases/`. */
  lemma {:induction false} RewriteFromPrefixed(s: string, atLineStart: bool)
    ensures IncludesPrefixed(RewriteFrom(s, atLineStart), atLineStart)
    decreases |s|
  {
    var n := |IncludeDirective|;
    if s == [] {
    } else if atLineStart && StartsWith(s, IncludeDirective) && !StartsWith(s[n..], CasesDir) {
      RewriteFromPrefixed(s[n..], false);
      InsertionPrefixed(s, atLineStart);
    } else {
      RewriteFromPrefixed(s[1..], Next(atLineStart, s[0]));
      CopyPrefixed(s, atLineStart);
    }
  }

  /** The step that inserts `cases/` keeps the property. */
  lemma InsertionPrefixed(s: string, atLineStart: bool)
    requires atLineStart && StartsWith(s, IncludeDirective) && !StartsWith(s[|IncludeDirective|..], CasesDir)
    requires IncludesPrefixed(RewriteFrom(s[|IncludeDirective|..], false), false)
    ensures IncludesPrefixed(RewriteFrom(s, atLineStart), atLineStart)
  {
    var n := |IncludeDirective|;
    var t := RewriteFrom(s, atLineStart);
    var head := IncludeDirective + CasesDir;
    assert t == head + RewriteFrom(s[n..], false);
    forall k | 0 < k < |head|
      ensures !StateAfter(atLineStart, t[..k])
    {
      assert t[..k] == head[..k];
      InsertedHeadClearsFlag(atLineStart, k);
    }
    forall k | 0 <= k <= |t| && StateAfter(atLineStart, t[..k]) && StartsWith(t[k..], IncludeDirective)
      ensures StartsWith(t[k + n..], CasesDir)
    {
      if k == 0 {
        assert t[n..][..|CasesDir|] == head[n..] == CasesDir;
      } else {
        assert |head| <= k;
        InsertionTail(s, atLineStart, k);
      }
    }
  }

  /** Past the inserted `include cases/`, the property is that of the rest. */
  lemma InsertionTail(s: string, atLineStart: bool, k: nat)
    requires atLineStart && StartsWith(s, IncludeDirective) && !StartsWith(s[|IncludeDirective|..], CasesDir)
    requires IncludesPrefixed(RewriteFrom(s[|IncludeDirective|..], false), false)
    requires |IncludeDirective + CasesDir| <= k <= |RewriteFrom(s, atLineStart)|
    requires StateAfter(atLineStart, RewriteFrom(s, atLineStart)[..k])
    requires StartsWith(RewriteFrom(s, atLineStart)[k..], IncludeDirective)
    ensures StartsWith(RewriteFrom(s, atLineStart)[k + |IncludeDirective|..], CasesDir)
  {
    var n := |IncludeDirective|;
    var t := RewriteFrom(s, atLineStart);
    var head := IncludeDirective + CasesDir;
    var rest := RewriteFrom(s[n..], false);
    assert t == head + rest;
    var k' := k - |head|;
    assert t[..k] == head + rest[..k'];
    StateAfterConcat(atLineStart, head, rest[..k']);
    InsertedHeadClearsFlag(atLineStart, |head| - 1);
    assert head == head[..|head| - 1] + [head[|head| - 1]];
    StateAfterConcat(atLineStart, head[..|head| - 1], [head[|head| - 1]]);
    assert StateAfter(atLineStart, head) == false;
    assert t[k..] == rest[k'..];
    assert t[k + n..] == rest[k' + n..];
  }

  /** Inside the inserted `include cases/`, past its first letter, the flag is clear. */
  lemma InsertedHeadClearsFlag(atLineStart: bool, k: nat)
    requires 0 < k < |IncludeDirective + CasesDir|
    ensures !StateAfter(atLineStart, (IncludeDirective + CasesDir)[..k])
  {
    var head := IncludeDirective + CasesDir;
    assert head[..k] == [head[0]] + head[1..k];
    StateAfterCons(atLineStart, head[0], head[1..k]);
    assert head[0] == 'i' && !Next(atLineStart, head[0]);
    StateAfterNoNewline(head[1..k]);
  }

  /** The step that copies one character keeps the property. */
  lemma CopyPrefixed(s: string, atLineStart: bool)
    requires s != []
    requires !(atLineStart && StartsWith(s, IncludeDirective) && !StartsWith(s[|IncludeDirective|..], CasesDir))
    requires IncludesPrefixed(RewriteFrom(s[1..], Next(atLineStart, s[0])), Next(atLineStart, s[0]))
    ensures IncludesPrefixed(RewriteFrom(s, atLineStart), atLineStart)
  {
    var n := |IncludeDirective|;
    var t := RewriteFrom(s, atLineStart);
    var c := s[0];
    var rest := RewriteFrom(s[1..], Next(atLineStart, c));
    assert t == [c] + rest;
    forall k | 0 <= k <= |t| && StateAfter(atLineStart, t[..k]) && StartsWith(t[k..], IncludeDirective)
      ensures StartsWith(t[k + n..], CasesDir)
    {
      if k == 0 {
        assert t[..0] == [] && t[0..] == t;
        CopyKeepsCases(s, atLineStart);
      } else {
        CopyTail(s, atLineStart, k);
      }
    }
  }

  /** Past the copied character, the property is that of the rest. */
  lemma CopyTail(s: string, atLineStart: bool, k: nat)
    requires s != []
    requires !(atLineStart && StartsWith(s, IncludeDirective) && !StartsWith(s[|IncludeDirective|..], CasesDir))
    requires IncludesPrefixed(RewriteFrom(s[1..], Next(atLineStart, s[0])), Next(atLineStart, s[0]))
    requires 0 < k <= |RewriteFrom(s, atLineStart)|
    requires StateAfter(atLineStart, RewriteFrom(s, atLineStart)[..k])
    requires StartsWith(RewriteFrom(s, atLineStart)[k..], IncludeDirective)
    ensures StartsWith(RewriteFrom(s, atLineStart)[k + |IncludeDirective|..], CasesDir)
  {
    var n := |IncludeDirective|;
    var t := RewriteFrom(s, atLineStart);
    var c := s[0];
    var rest := RewriteFrom(s[1..], Next(atLineStart, c));
    assert t == [c] + rest;
    assert t[..k] == [c] + rest[..k - 1];
    StateAfterCons(atLineStart, c, rest[..k - 1]);
    assert t[k..] == rest[k - 1..];
    assert t[k + n..] == rest[k - 1 + n..];
  }

  /** When the copying step starts its output with `include `, the input had
      `include cases/` there, and so has the output. */
  lemma CopyKeepsCases(s: string, atLineStart: bool)
    requires s != [] && atLineStart
    requires !(StartsWith(s, IncludeDirective) && !StartsWith(s[|IncludeDirective|..], CasesDir))
    requires StartsWith(RewriteFrom(s, atLineStart), IncludeDirective)
    ensures StartsWith(RewriteFrom(s, atLineStart)[|IncludeDirective|..], CasesDir)
  {
    var n := |IncludeDirective|;
    var t := RewriteFrom(s, atLineStart);
    var c := s[0];
    var rest := RewriteFrom(s[1..], Next(atLineStart, c));
    assert t == [c] + rest;
    var tail := IncludeDirective[1..];
    var tailCases := IncludeDirective[1..] + CasesDir;
    StartsWithCons(c, rest, IncludeDirective);
    assert c == 'i' && !Next(atLineStart, c);
    RewriteClearedStartsWith(s[1..], tail);
    StartsWithCons(c, s[1..], IncludeDirective);
    assert s == [c] + s[1..];
    assert StartsWith(s[1..], tailCases) by {
      assert s[1..][..|tailCases|] == tail + s[n..][..|CasesDir|];
    }
    RewriteClearedStartsWith(s[1..], tailCases);
    assert t[n..][..|CasesDir|] == rest[..|tailCases|][|tail|..];
  }

  /** A text whose every `include ` where the flag is set already reads
      `include cases/` is left as it is. */
  lemma {:induction false} RewriteFromFixed(s: string, atLineStart: bool)
    requires IncludesPrefixed(s, atLineStart)
    ensures RewriteFrom(s, atLineStart) == s
    decreases |s|
  {
    if s != [] {
      var n := |IncludeDirective|;
      assert s[..0] == [] && s[0..] == s;
      var c := s[0];
      assert IncludesPrefixed(s[1..], Next(atLineStart, c)) by {
        forall k | 0 <= k <= |s[1..]| && StateAfter(Next(atLineStart, c), s[1..][..k]) && StartsWith(s[1..][k..], IncludeDirective)
          ensures StartsWith(s[1..][k + n..], CasesDir)
        {
          assert s[..k + 1] == [c] + s[1..][..k];
          StateAfterCons(atLineStart, c, s[1..][..k]);
          assert s[k + 1..] == s[1..][k..];
          assert s[k + 1 + n..] == s[1..][k + n..];
        }
      }
      RewriteFromFixed(s[1..], Next(atLineStart, c));
      assert [c] + s[1..] == s;
    }
  }

  /** In the rewritten source, every line-initial `include ` reads `include cases/`. */
  lemma RewriteIncludesPrefixed(src: string)
    ensures var t := RewriteIncludes(src);
            forall k :: 0 <= k <= |t| && LineInitial(t, k) && StartsWith(t[k..], IncludeDirective) ==>
              StartsWith(t[k + |IncludeDirective|..], CasesDir)
  {
    var t := RewriteIncludes(src);
    RewriteFromPrefixed(src, true);
    forall k | 0 <= k <= |t| && LineInitial(t, k) && StartsWith(t[k..], IncludeDirective)
      ensures StartsWith(t[k + |IncludeDirective|..], CasesDir)
    {
      StateAfterIsLineInitial(t, k);
    }
  }

  /** A source whose every line-initial `include ` already reads
      `include cases/` is not changed. */
  lemma RewriteIncludesKeepsPrefixed(src: string)
    requires forall k :: 0 <= k <= |src| && LineInitial(src, k) && StartsWith(src[k..], IncludeDirective) ==>
               StartsWith(src[k + |IncludeDirective|..], CasesDir)
    ensures RewriteIncludes(src) == src
  {
    forall k | 0 <= k <= |src| && StateAfter(true, src[..k]) && StartsWith(src[k..], IncludeDirective)
      ensures StartsWith(src[k + |IncludeDirective|..], CasesDir)
    {
      StateAfterIsLineInitial(src, k);
    }
    RewriteFromFixed(src, true);
  }

  /** Rewriting a rewritten source changes nothing. */
  lemma RewriteIncludesIdempotent(src: string)
    ensures RewriteIncludes(RewriteIncludes(src)) == RewriteIncludes(src)
  {
    RewriteFromPrefixed(src, true);
    RewriteFromFixed(RewriteIncludes(src), true);
  }

  /** A source without `include` is not changed. */
  lemma RewriteIncludesWithoutInclude(src: string)
    requires !Contains(src, IncludeKeyword)
    ensures RewriteIncludes(src) == src
  {
    forall k | 0 <= k <= |src| && StartsWith(src[k..], IncludeDirective)
      ensures OccursAt(src, IncludeKeyword, k)
    {
      assert StartsWith(src[k..], IncludeKeyword) by {
        assert src[k..][..|IncludeKeyword|] == src[k..][..|IncludeDirective|][..|IncludeKeyword|];
      }
      StartsWithOccurs(src, IncludeKeyword, k);
    }
    RewriteFromFixed(src, true);
  }

  /** The regular expression matches with its `include ` at `k`: the prefix
      `(^|\n)\s*` can end at `k`, `include ` follows, and `cases/` does not
      follow that. */
  ghost predicate UnprefixedInclude(s: string, k: nat)
    requires k <= |s|
  {
    LineInitial(s, k) && StartsWith(s[k..], IncludeDirective) && !StartsWith(s[k + |IncludeDirective|..], CasesDir)
  }

  /** Strictly increasing indices, each between `lo` and `hi`. */
  ghost predicate PointsWithin(points: seq<nat>, lo: nat, hi: nat) {
    (forall i :: 0 <= i < |points| ==> lo <= points[i] <= hi) &&
    (forall i, j :: 0 <= i < j < |points| ==> points[i] < points[j])
  }

  /** `s[from..]` with `cases/` inserted before each index in `points`. */
  ghost function Splice(s: string, from: nat, points: seq<nat>): string
    requires from <= |s| && PointsWithin(points, from, |s|)
    decreases |points|
  {
    if points == [] then s[from..]
    else
      assert PointsWithin(points[1..], points[0], |s|) by {
        forall i | 0 <= i < |points[1..]| ensures points[0] <= points[1..][i] {
          assert points[1..][i] == points[i + 1];
        }
      }
      s[from..points[0]] + CasesDir + Splice(s, points[0], points[1..])
  }

  /** The indices from `j` on just after an `include ` that the regular
      expression matches, in increasing order. */
  ghost function InsertionPoints(s: string, j: nat): (points: seq<nat>)
    requires j <= |s|
    ensures PointsWithin(points, j + |IncludeDirective|, |s|)
    decreases |s| - j
  {
    if j == |s| then []
    else if UnprefixedInclude(s, j) then [j + |IncludeDirective|] + InsertionPoints(s, j + |IncludeDirective|)
    else InsertionPoints(s, j + 1)
  }

  /** Inside an `include `, and just after it, the prefix `(^|\n)\s*` cannot end. */
  lemma {:induction false} NotLineInitialInInclude(s: string, j: nat, m: nat)
    requires j <= |s| && StartsWith(s[j..], IncludeDirective)
    requires j < m <= j + |IncludeDirective|
    ensures !LineInitial(s, m)
    decreases m
  {
    assert s[m - 1] == s[j..][..|IncludeDirective|][m - 1 - j] == IncludeDirective[m - 1 - j];
    LineInitialStep(s, m);
    if m > j + 1 {
      NotLineInitialInInclude(s, j, m - 1);
    }
  }

  /** An index is an insertion point exactly when the regular expression
      matches with its `include ` just before it. */
  lemma {:induction false} InsertionPointsExact(s: string, j: nat, q: nat)
    requires j <= |s|
    ensures q in InsertionPoints(s, j) <==>
            j + |IncludeDirective| <= q <= |s| && UnprefixedInclude(s, q - |IncludeDirective|)
    decreases |s| - j
  {
    var n := |IncludeDirective|;
    if j < |s| {
      if UnprefixedInclude(s, j) {
        InsertionPointsExact(s, j + n, q);
        if j + n < q < j + 2 * n && q <= |s| {
          NotLineInitialInInclude(s, j, q - n);
        }
      } else {
        InsertionPointsExact(s, j + 1, q);
      }
    }
  }

  /** Splicing from `j` copies `s[j]` first when no insertion point is at `j`. */
  lemma SpliceCons(s: string, j: nat, points: seq<nat>)
    requires j < |s| && PointsWithin(points, j + 1, |s|)
    ensures Splice(s, j, points) == [s[j]] + Splice(s, j + 1, points)
  {
    if points != [] {
      var p := points[0];
      assert Splice(s, j, points) == s[j..p] + CasesDir + Splice(s, p, points[1..]);
      assert Splice(s, j + 1, points) == s[j + 1..p] + CasesDir + Splice(s, p, points[1..]);
      assert s[j..p] == [s[j]] + s[j + 1..p];
    } else {
      assert s[j..] == [s[j]] + s[j + 1..];
    }
  }

  /** From index `j` on, the scan computes the splice at the insertion points. */
  lemma {:induction false} RewriteFromSplices(s: string, j: nat)
    requires j <= |s|
    ensures RewriteFrom(s[j..], LineInitial(s, j)) == Splice(s, j, InsertionPoints(s, j))
    decreases |s| - j
  {
    var n := |IncludeDirective|;
    if j == |s| {
      assert s[j..] == [];
    } else {
      if j + n <= |s| {
        assert s[j..][n..] == s[j + n..];
      }
      if UnprefixedInclude(s, j) {
        NotLineInitialInInclude(s, j, j + n);
        RewriteFromSplices(s, j + n);
        assert s[j..j + n] == s[j..][..n];
      } else {
        assert s[j..][1..] == s[j + 1..];
        LineInitialStep(s, j + 1);
        RewriteFromSplices(s, j + 1);
        SpliceCons(s, j, InsertionPoints(s, j + 1));
      }
    }
  }

  lemma {:induction false} SpliceLength(s: string, from: nat, points: seq<nat>)
    requires from <= |s| && PointsWithin(points, from, |s|)
    ensures |Splice(s, from, points)| == |s| - from + |CasesDir| * |points|
    decreases |points|
  {
    if points != [] {
      assert PointsWithin(points[1..], points[0], |s|) by {
        forall i | 0 <= i < |points[1..]| ensures points[0] <= points[1..][i] {
          assert points[1..][i] == points[i + 1];
        }
      }
      SpliceLength(s, points[0], points[1..]);
    }
  }

  /** The rewrite is the source with `cases/` inserted exactly after each
      line-initial `include ` not already followed by `cases/`, and nowhere
      else; so the output is `cases/` longer than the source per match. */
  lemma RewriteIncludesInsertsCases(src: string)
    ensures var points := InsertionPoints(src, 0);
            (forall q: nat :: q in points <==>
               |IncludeDirective| <= q <= |src| && UnprefixedInclude(src, q - |IncludeDirective|)) &&
            RewriteIncludes(src) == Splice(src, 0, points) &&
            |RewriteIncludes(src)| == |src| + |CasesDir| * |points|
  {
    var points := InsertionPoints(src, 0);
    forall q: nat
      ensures q in points <==> |IncludeDirective| <= q <= |src| && UnprefixedInclude(src, q - |IncludeDirective|)
    {
      InsertionPointsExact(src, 0, q);
    }
    assert LineInitial(src, 0) by {
      assert SpacesBetween(src, -1, 0);
    }
    assert src[0..] == src;
    RewriteFromSplices(src, 0);
    SpliceLength(src, 0, points);
  }

  /** A line-initial `include cases/` gets no insertion, whatever the rest of
      the source holds. */
  lemma RewriteIncludesKeepsPrefixedLine(src: string, k: nat)
    requires k <= |src| && LineInitial(src, k) && StartsWith(src[k..], IncludeDirective + CasesDir)
    ensures k + |IncludeDirective| !in InsertionPoints(src, 0)
  {
    var n := |IncludeDirective|;
    InsertionPointsExact(src, 0, k + n);
    assert src[k..][..n] == (IncludeDirective + CasesDir)[..n] == IncludeDirective;
    assert src[k + n..][..|CasesDir|] == src[k..][..n + |CasesDir|][n..] == CasesDir;
  }

  /** The `'include' in src` guard changes nothing: `html_process` hands the
      compiler the rewritten source, whatever the file name. */
  lemma HtmlProcessRewritesIncludes(compile: string -> Rendered, src: string, filename: string)
    ensures HtmlProcess(compile)(src, filename) == compile(RewriteIncludes(src))
  {
    assert HtmlProcess(compile)(src, filename) == compile(HtmlSource(src));
    if !Contains(src, IncludeKeyword) {
      RewriteIncludesWithoutInclude(src);
    }
  }
}
