/** The case runner: call the backend's processor on a case's source, strip the
    newline characters (and only those) from both ends of the rendered text and
    of the expected text, and compare the two exactly. A processor that signals
    `CurrentlyNotSupported` makes the case pass without a comparison. */
module Runner {
  import opened Discovery
  import opened Exclusions
  import opened Generator
  import opened Backends

  /** The outcome of one invocation; a failure carries both compared texts. */
  datatype Outcome = Pass | Fail(actual: string, expected: string) | Unsupported

  function StripLeading(s: string): string
  {
    if |s| > 0 && s[0] == '\n' then StripLeading(s[1..]) else s
  }

  function StripTrailing(s: string): string
  {
    if |s| > 0 && s[|s| - 1] == '\n' then StripTrailing(s[..|s| - 1]) else s
  }

  /** `s.strip('\n')` */
  function StripNewlines(s: string): string
  {
    StripTrailing(StripLeading(s))
  }

  /** `s[i..j]` is what stripping newlines from both ends of `s` leaves: all of
      `s` outside it is newlines, and it neither starts nor ends with one. */
  ghost predicate TrimmedAt(s: string, i: int, j: int) {
    0 <= i <= j <= |s| &&
    (forall k :: 0 <= k < i ==> s[k] == '\n') &&
    (forall k :: j <= k < |s| ==> s[k] == '\n') &&
    (i < j ==> s[i] != '\n' && s[j - 1] != '\n')
  }

  lemma {:induction false} StripLeadingAt(s: string) returns (i: nat)
    ensures i <= |s| && StripLeading(s) == s[i..]
    ensures forall k :: 0 <= k < i ==> s[k] == '\n'
    ensures i < |s| ==> s[i] != '\n'
  {
    if |s| > 0 && s[0] == '\n' {
      var i' := StripLeadingAt(s[1..]);
      i := i' + 1;
      assert s[1..][i'..] == s[i..];
      forall k | 0 <= k < i ensures s[k] == '\n' {
        if k > 0 {
          assert s[1..][k - 1] == s[k];
        }
      }
    } else {
      i := 0;
    }
  }

  lemma {:induction false} StripTrailingAt(s: string) returns (j: nat)
    ensures j <= |s| && StripTrailing(s) == s[..j]
    ensures forall k :: j <= k < |s| ==> s[k] == '\n'
    ensures 0 < j ==> s[j - 1] != '\n'
  {
    if |s| > 0 && s[|s| - 1] == '\n' {
      j := StripTrailingAt(s[..|s| - 1]);
      assert s[..|s| - 1][..j] == s[..j];
    } else {
      j := |s|;
    }
  }

  lemma StripNewlinesAt(s: string) returns (i: nat, j: nat)
    ensures TrimmedAt(s, i, j) && StripNewlines(s) == s[i..j]
  {
    i := StripLeadingAt(s);
    var j' := StripTrailingAt(s[i..]);
    j := i + j';
    assert s[i..][..j'] == s[i..j];
    forall k | j <= k < |s| ensures s[k] == '\n' {
      assert s[i..][k - i] == s[k];
    }
    if i < j {
      assert s[i..][j' - 1] == s[j - 1];
    }
  }

  /** Only one slice of `s` is trimmed. */
  lemma TrimmedUnique(s: string, i1: int, j1: int, i2: int, j2: int)
    requires TrimmedAt(s, i1, j1) && TrimmedAt(s, i2, j2)
    ensures s[i1..j1] == s[i2..j2]
  {
    if i1 < j1 && i2 < j2 {
      assert i1 == i2 && j1 == j2;
    }
  }

  /** `StripNewlines(s)` is exactly the slice of `s` left once the newline
      characters at both ends are removed. */
  lemma StripNewlinesIsTrim(s: string, r: string)
    ensures r == StripNewlines(s) <==> exists i, j :: TrimmedAt(s, i, j) && r == s[i..j]
  {
    var i, j := StripNewlinesAt(s);
    if exists i', j' :: TrimmedAt(s, i', j') && r == s[i'..j'] {
      var i', j' :| TrimmedAt(s, i', j') && r == s[i'..j'];
      TrimmedUnique(s, i, j, i', j');
    }
  }

  /** The stripped text neither starts nor ends with a newline. */
  lemma StripNewlinesBoundary(s: string)
    ensures var r := StripNewlines(s); r == [] || (r[0] != '\n' && r[|r| - 1] != '\n')
  {
    var i, j := StripNewlinesAt(s);
  }

  /** Stripping twice strips nothing more. */
  lemma StripNewlinesIdempotent(s: string)
    ensures StripNewlines(StripNewlines(s)) == StripNewlines(s)
  {
    var r := StripNewlines(s);
    StripNewlinesBoundary(s);
    assert TrimmedAt(r, 0, |r|);
    assert r[0..|r|] == r;
    StripNewlinesIsTrim(r, r);
  }

  function Newlines(n: nat): string {
    seq(n, _ => '\n')
  }

  /** Texts that differ only in newlines at their ends strip to the same text. */
  lemma StripNewlinesIgnoresOuterNewlines(t: string, m: nat, n: nat)
    ensures StripNewlines(Newlines(m) + t + Newlines(n)) == StripNewlines(t)
  {
    var s := Newlines(m) + t + Newlines(n);
    var i, j := StripNewlinesAt(t);
    assert TrimmedAt(s, m + i, m + j) by {
      forall k | 0 <= k < m + i ensures s[k] == '\n' {
        if k >= m { assert s[k] == t[k - m]; }
      }
      forall k | m + j <= k < |s| ensures s[k] == '\n' {
        if k < m + |t| { assert s[k] == t[k - m]; }
      }
      if i < j {
        assert s[m + i] == t[i] && s[m + j - 1] == t[j - 1];
      }
    }
    assert s[m + i..m + j] == t[i..j];
    StripNewlinesIsTrim(s, t[i..j]);
  }

  /** Stripping removes newline characters only: every other character keeps
      its number of occurrences. */
  lemma StripNewlinesKeepsOtherChars(s: string, c: char)
    requires c != '\n'
    ensures multiset(StripNewlines(s))[c] == multiset(s)[c]
  {
    var i, j := StripNewlinesAt(s);
    var before, kept, after := s[..i], s[i..j], s[j..];
    assert s == before + kept + after;
    assert multiset(s) == multiset(before) + multiset(kept) + multiset(after);
    assert forall k :: 0 <= k < |before| ==> before[k] == '\n';
    assert forall k :: 0 <= k < |after| ==> after[k] == s[j + k] == '\n';
    assert multiset(before)[c] == 0 && multiset(after)[c] == 0;
  }

  /** A difference in one interior character other than a newline, a space
      say, survives the strip. */
  lemma StripNewlinesKeepsInteriorDifference(p: string, q: string, c: char)
    requires c != '\n'
    ensures StripNewlines(p + [c] + q) != StripNewlines(p + q)
  {
    StripNewlinesKeepsOtherChars(p + [c] + q, c);
    StripNewlinesKeepsOtherChars(p + q, c);
    assert multiset(p + [c] + q)[c] == multiset(p + q)[c] + 1;
  }

  /** Judge a processor result against the expected file's text: a
      not-supported signal is no failure and compares nothing; otherwise the
      case passes iff both texts are equal once stripped, and a failure reports
      both stripped texts. */
  function Judge(expectedFile: string, result: Rendered): (o: Outcome)
    ensures result.NotSupported? <==> o.Unsupported?
    ensures result.Output? ==> (o.Pass? <==> StripNewlines(result.text) == StripNewlines(expectedFile))
    ensures o.Fail? ==> o == Fail(StripNewlines(result.text), StripNewlines(expectedFile))
  {
    match result
    case NotSupported => Unsupported
    case Output(text) =>
      var actual, expected := StripNewlines(text), StripNewlines(expectedFile);
      if actual == expected then Pass else Fail(actual, expected)
  }

  /** Rendered and expected texts that differ only in newlines at their ends pass. */
  lemma JudgeIgnoresOuterNewlines(t: string, a: nat, b: nat, c: nat, d: nat)
    ensures Judge(Newlines(a) + t + Newlines(b), Output(Newlines(c) + t + Newlines(d))) == Pass
  {
    StripNewlinesIgnoresOuterNewlines(t, a, b);
    StripNewlinesIgnoresOuterNewlines(t, c, d);
  }

  /** A rendered text with one extra interior character that is not a newline fails. */
  lemma JudgeDetectsInteriorDifference(p: string, q: string, c: char)
    requires c != '\n'
    ensures Judge(p + q, Output(p + [c] + q)).Fail?
  {
    StripNewlinesKeepsInteriorDifference(p, q, c);
  }

  /** `run_case(case, backend)`, with the two fixture files' contents as inputs:
      the backend's processor is called on the source with the file name
      `case + '.pug'`, and its result is judged against the expected text. */
  function RunCase(registry: Registry, caseName: string, backend: string, source: string, expectedFile: string): (o: Outcome)
    reads registry
    requires backend in registry.processors
    ensures var result := registry.processors[backend](source, caseName + SourceExtension);
            (result.NotSupported? <==> o.Unsupported?) &&
            (result.Output? ==> (o.Pass? <==> StripNewlines(result.text) == StripNewlines(expectedFile)))
  {
    Judge(expectedFile, registry.processors[backend](source, caseName + SourceExtension))
  }

  /** Everything the generator yields over a registry the module builds can be
      run: its backend has a processor, so the `processors[process]` lookup never
      faults. */
  lemma GeneratedInvocationsRunnable(registry: Registry, listings: seq<seq<string>>, inv: Invocation)
    requires registry.Valid()
    ensures Covered(registry.keys, Table)
    ensures inv in Walk(listings, registry.keys, Table) ==> inv.backend in registry.processors
  {
    RegisteredBackendsCovered(registry);
    WalkMembership(listings, registry.keys, Table, inv);
  }
}
