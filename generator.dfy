/** The case generator: for every directory listing of the fixture walk, every
    registered backend (outer loop) and every derived case name (inner loop),
    one invocation `(case, backend)` unless the case is in that backend's
    exclusion set. */
module Generator {
  import opened Discovery
  import opened Exclusions

  /** One yielded test: `run_case` applied to a case name and a backend name. */
  datatype Invocation = Invocation(caseName: string, backend: string)

  /** Every backend has an entry in the exclusion table. */
  predicate Covered(backends: seq<string>, table: map<string, set<string>>) {
    forall b :: b in backends ==> b in table
  }

  ghost predicate Distinct<T>(s: seq<T>) {
    forall i, j :: 0 <= i < j < |s| ==> s[i] != s[j]
  }

  /** The inner loop: the invocations of one backend over the case names, in order. */
  function ForBackend(cases: seq<string>, backend: string, excluded: set<string>): seq<Invocation>
  {
    if cases == [] then []
    else ForBackend(cases[..|cases| - 1], backend, excluded)
         + (if cases[|cases| - 1] in excluded then [] else [Invocation(cases[|cases| - 1], backend)])
  }

  /** Both loops over one listing's case names: backend-major. */
  function ForListing(cases: seq<string>, backends: seq<string>, table: map<string, set<string>>): seq<Invocation>
    requires Covered(backends, table)
  {
    if backends == [] then []
    else ForListing(cases, backends[..|backends| - 1], table)
         + ForBackend(cases, backends[|backends| - 1], table[backends[|backends| - 1]])
  }

  /** What the generator yields for one directory listing. */
  function Generate(fileNames: seq<string>, backends: seq<string>, table: map<string, set<string>>): seq<Invocation>
    requires Covered(backends, table)
  {
    ForListing(CaseNames(fileNames), backends, table)
  }

  /** What the generator yields over the listings of the whole walk, in order. */
  function Walk(listings: seq<seq<string>>, backends: seq<string>, table: map<string, set<string>>): seq<Invocation>
    requires Covered(backends, table)
  {
    if listings == [] then []
    else Walk(listings[..|listings| - 1], backends, table) + Generate(listings[|listings| - 1], backends, table)
  }

  /** The generator's nested loops, appending where the source yields. The
      loop over the listings is here; the two inner loops are `ListingLoop` and
      `BackendLoop`. */
  method TestCaseGenerator(listings: seq<seq<string>>, backends: seq<string>, table: map<string, set<string>>)
    returns (invocations: seq<Invocation>)
    requires Covered(backends, table)
    ensures invocations == Walk(listings, backends, table)
  {
    invocations := [];
    for d := 0 to |listings|
      invariant invocations == Walk(listings[..d], backends, table)
    {
      var yielded := ListingLoop(CaseNames(listings[d]), backends, table);
      invocations := invocations + yielded;
      WalkStep(listings, d, backends, table);
    }
    assert listings[..|listings|] == listings;
  }

  /** The loop over the registered backends for one listing's case names. */
  method ListingLoop(cases: seq<string>, backends: seq<string>, table: map<string, set<string>>)
    returns (invocations: seq<Invocation>)
    requires Covered(backends, table)
    ensures invocations == ForListing(cases, backends, table)
  {
    invocations := [];
    for p := 0 to |backends|
      invariant Covered(backends[..p], table)
      invariant invocations == ForListing(cases, backends[..p], table)
    {
      var yielded := BackendLoop(cases, backends[p], table[backends[p]]);
      invocations := invocations + yielded;
      ForListingStep(cases, backends, p, table);
    }
    assert backends[..|backends|] == backends;
  }

  /** The loop over the case names for one backend: yield each case that is
      not excluded. */
  method BackendLoop(cases: seq<string>, backend: string, excluded: set<string>)
    returns (invocations: seq<Invocation>)
    ensures invocations == ForBackend(cases, backend, excluded)
  {
    invocations := [];
    for i := 0 to |cases|
      invariant invocations == ForBackend(cases[..i], backend, excluded)
    {
      if cases[i] !in excluded {
        invocations := invocations + [Invocation(cases[i], backend)];
      }
      ForBackendStep(cases, i, backend, excluded);
    }
    assert cases[..|cases|] == cases;
  }

  lemma ForBackendStep(cases: seq<string>, i: nat, backend: string, excluded: set<string>)
    requires i < |cases|
    ensures ForBackend(cases[..i + 1], backend, excluded) ==
            ForBackend(cases[..i], backend, excluded) + (if cases[i] in excluded then [] else [Invocation(cases[i], backend)])
  {
    assert cases[..i + 1][..i] == cases[..i];
  }

  lemma ForListingStep(cases: seq<string>, backends: seq<string>, p: nat, table: map<string, set<string>>)
    requires p < |backends| && Covered(backends, table)
    ensures Covered(backends[..p], table) && Covered(backends[..p + 1], table)
    ensures ForListing(cases, backends[..p + 1], table) ==
            ForListing(cases, backends[..p], table) + ForBackend(cases, backends[p], table[backends[p]])
  {
    assert backends[..p + 1][..p] == backends[..p];
  }

  lemma WalkStep(listings: seq<seq<string>>, d: nat, backends: seq<string>, table: map<string, set<string>>)
    requires d < |listings| && Covered(backends, table)
    ensures Walk(listings[..d + 1], backends, table) ==
            Walk(listings[..d], backends, table) + Generate(listings[d], backends, table)
  {
    assert listings[..d + 1][..d] == listings[..d];
  }

  /** `s` with every occurrence of `x` removed. */
  function Without(s: seq<Invocation>, x: Invocation): seq<Invocation>
  {
    if s == [] then []
    else Without(s[..|s| - 1], x) + (if s[|s| - 1] == x then [] else [s[|s| - 1]])
  }

  lemma {:induction false} ForBackendCount(cases: seq<string>, backend: string, excluded: set<string>, inv: Invocation)
    ensures multiset(ForBackend(cases, backend, excluded))[inv] ==
            if inv.backend == backend && inv.caseName !in excluded then multiset(cases)[inv.caseName] else 0
  {
    if cases != [] {
      var init, last := cases[..|cases| - 1], cases[|cases| - 1];
      assert cases == init + [last];
      ForBackendCount(init, backend, excluded, inv);
    }
  }

  lemma {:induction false} ForListingCount(cases: seq<string>, backends: seq<string>, table: map<string, set<string>>, inv: Invocation)
    requires Covered(backends, table)
    ensures multiset(ForListing(cases, backends, table))[inv] ==
            if inv.backend in backends && !IsExcluded(table, inv.backend, inv.caseName)
            then multiset(cases)[inv.caseName] * multiset(backends)[inv.backend]
            else 0
  {
    if backends != [] {
      var init, last := backends[..|backends| - 1], backends[|backends| - 1];
      assert backends == init + [last];
      assert multiset(backends) == multiset(init) + multiset{last};
      ForListingCount(cases, init, table, inv);
      ForBackendCount(cases, last, table[last], inv);
      var b, c := inv.backend, inv.caseName;
      CombineCounts(b in init, b == last, b in table && c in table[b],
                    multiset(cases)[c], multiset(init)[b], multiset(backends)[b],
                    multiset(ForListing(cases, init, table))[inv],
                    multiset(ForBackend(cases, last, table[last]))[inv],
                    multiset(ForListing(cases, backends, table))[inv]);
    }
  }

  /** The arithmetic of one step of ForListingCount. */
  lemma CombineCounts(inInit: bool, isLast: bool, excluded: bool, mc: nat, mb: nat, mbAll: nat, prev: nat, cur: nat, total: nat)
    requires prev == if inInit && !excluded then mc * mb else 0
    requires cur == if isLast && !excluded then mc else 0
    requires total == prev + cur
    requires mbAll == mb + (if isLast then 1 else 0)
    requires !inInit ==> mb == 0
    ensures total == if (inInit || isLast) && !excluded then mc * mbAll else 0
  {
    if !excluded {
      MulDistributes(mc, mb, if isLast then 1 else 0);
      if !inInit {
        MulZero(mc, mb);
      }
    }
  }

  /** Each non-excluded pair of a registered backend and a derived case name is
      yielded as many times as the backend is listed times the case name is
      derived; an excluded pair, or one with an unregistered backend, never. */
  lemma GenerateCount(fileNames: seq<string>, backends: seq<string>, table: map<string, set<string>>, inv: Invocation)
    requires Covered(backends, table)
    ensures multiset(Generate(fileNames, backends, table))[inv] ==
            if inv.backend in backends && !IsExcluded(table, inv.backend, inv.caseName)
            then multiset(CaseNames(fileNames))[inv.caseName] * multiset(backends)[inv.backend]
            else 0
  {
    ForListingCount(CaseNames(fileNames), backends, table, inv);
  }

  /** A pair is yielded for a listing iff its backend is registered, its case
      name is derived from the listing and the case is not excluded for it. */
  lemma GenerateMembership(fileNames: seq<string>, backends: seq<string>, table: map<string, set<string>>, inv: Invocation)
    requires Covered(backends, table)
    ensures inv in Generate(fileNames, backends, table) <==>
            inv.backend in backends && inv.caseName in CaseNames(fileNames) && !IsExcluded(table, inv.backend, inv.caseName)
  {
    GenerateCount(fileNames, backends, table, inv);
    var mc, mb := multiset(CaseNames(fileNames))[inv.caseName], multiset(backends)[inv.backend];
    if inv.backend in backends && inv.caseName in CaseNames(fileNames) {
      PositiveProduct(mc, mb);
    }
  }

  lemma MulZero(a: nat, z: nat)
    requires z == 0
    ensures a * z == 0
  {
  }

  lemma MulDistributes(a: nat, x: nat, y: nat)
    ensures a * (x + y) == a * x + a * y
  {
  }

  lemma PositiveProduct(a: nat, b: nat)
    requires a > 0 && b > 0
    ensures a * b > 0
  {
  }

  lemma {:induction false} DistinctCount<T>(s: seq<T>, x: T)
    requires Distinct(s)
    ensures multiset(s)[x] == if x in s then 1 else 0
  {
    if s != [] {
      var init, last := s[..|s| - 1], s[|s| - 1];
      assert s == init + [last];
      DistinctCount(init, x);
      if x == last {
        assert x !in init;
      }
    }
  }

  /** Without distinct case names a pair can be yielded twice for one listing:
      `a.pug` and `a.pug.pug` both give case `a`. */
  lemma SharedCaseNameYieldedTwice()
    ensures Covered([Django], Table)
    ensures multiset(Generate(["a.pug", "a.pug.pug"], [Django], Table))[Invocation("a", Django)] == 2
  {
    TableCoversRegistrable();
    SharedCaseName();
    TableExclusions();
    GenerateCount(["a.pug", "a.pug.pug"], [Django], Table, Invocation("a", Django));
    assert multiset(["a", "a"])["a"] == 2;
    assert multiset([Django])[Django] == 1;
  }

  /** With distinct backend keys (a dictionary's) and distinct case names, every
      non-excluded pair is yielded exactly once per listing. */
  lemma GenerateExactlyOnce(fileNames: seq<string>, backends: seq<string>, table: map<string, set<string>>, inv: Invocation)
    requires Covered(backends, table)
    requires Distinct(backends) && Distinct(CaseNames(fileNames))
    requires inv.backend in backends && inv.caseName in CaseNames(fileNames)
    requires !IsExcluded(table, inv.backend, inv.caseName)
    ensures multiset(Generate(fileNames, backends, table))[inv] == 1
  {
    GenerateCount(fileNames, backends, table, inv);
    DistinctCount(backends, inv.backend);
    DistinctCount(CaseNames(fileNames), inv.caseName);
  }

  lemma {:induction false} WithoutConcat(a: seq<Invocation>, b: seq<Invocation>, x: Invocation)
    ensures Without(a + b, x) == Without(a, x) + Without(b, x)
    decreases |b|
  {
    if b == [] {
      assert a + b == a;
    } else {
      var init, last := b[..|b| - 1], b[|b| - 1];
      assert (a + b)[..|a + b| - 1] == a + init;
      assert (a + b)[|a + b| - 1] == last;
      WithoutConcat(a, init, x);
    }
  }

  lemma {:induction false} WithoutAbsent(s: seq<Invocation>, x: Invocation)
    requires x !in s
    ensures Without(s, x) == s
  {
    if s != [] {
      var init := s[..|s| - 1];
      WithoutAbsent(init, x);
      assert init + [s[|s| - 1]] == s;
    }
  }

  lemma {:induction false} ForBackendExclude(cases: seq<string>, backend: string, excluded: set<string>, c: string)
    ensures ForBackend(cases, backend, excluded + {c}) == Without(ForBackend(cases, backend, excluded), Invocation(c, backend))
  {
    var x := Invocation(c, backend);
    if cases != [] {
      var init, last := cases[..|cases| - 1], cases[|cases| - 1];
      ForBackendExclude(init, backend, excluded, c);
      var tail := if last in excluded then [] else [Invocation(last, backend)];
      WithoutConcat(ForBackend(init, backend, excluded), tail, x);
      if tail != [] {
        assert Without(tail, x) == Without([], x) + (if tail[0] == x then [] else tail) by {
          assert tail[..0] == [];
        }
      }
    }
  }

  lemma {:induction false} ForListingExclude(cases: seq<string>, backends: seq<string>, table: map<string, set<string>>, b: string, c: string)
    requires Covered(backends, table) && b in table
    ensures Covered(backends, table[b := table[b] + {c}])
    ensures ForListing(cases, backends, table[b := table[b] + {c}]) == Without(ForListing(cases, backends, table), Invocation(c, b))
  {
    var table' := table[b := table[b] + {c}];
    var x := Invocation(c, b);
    if backends != [] {
      var init, last := backends[..|backends| - 1], backends[|backends| - 1];
      assert Covered(init, table) by {
        forall b0 | b0 in init ensures b0 in table {
          var k :| 0 <= k < |init| && init[k] == b0;
          assert backends[k] == b0;
        }
      }
      ForListingExclude(cases, init, table, b, c);
      WithoutConcat(ForListing(cases, init, table), ForBackend(cases, last, table[last]), x);
      if last == b {
        ForBackendExclude(cases, last, table[last], c);
      } else {
        ForBackendCount(cases, last, table[last], x);
        WithoutAbsent(ForBackend(cases, last, table[last]), x);
      }
    }
  }

  /** Exclusion monotonicity: adding case `c` to backend `b`'s exclusion set
      removes exactly the pair `(c, b)` from what is yielded and adds nothing. */
  lemma ExclusionMonotone(fileNames: seq<string>, backends: seq<string>, table: map<string, set<string>>, b: string, c: string)
    requires Covered(backends, table) && b in table
    ensures Covered(backends, table[b := table[b] + {c}])
    ensures Generate(fileNames, backends, table[b := table[b] + {c}]) == Without(Generate(fileNames, backends, table), Invocation(c, b))
  {
    ForListingExclude(CaseNames(fileNames), backends, table, b, c);
  }

  /** Over the whole walk, a pair is yielded iff its backend is registered, the
      case is not excluded for it, and some listing derives the case name. */
  lemma {:induction false} WalkMembership(listings: seq<seq<string>>, backends: seq<string>, table: map<string, set<string>>, inv: Invocation)
    requires Covered(backends, table)
    ensures inv in Walk(listings, backends, table) <==>
            inv.backend in backends && !IsExcluded(table, inv.backend, inv.caseName) &&
            exists d :: 0 <= d < |listings| && inv.caseName in CaseNames(listings[d])
  {
    if listings != [] {
      var init, last := listings[..|listings| - 1], listings[|listings| - 1];
      WalkMembership(init, backends, table, inv);
      GenerateMembership(last, backends, table, inv);
      if exists d :: 0 <= d < |listings| && inv.caseName in CaseNames(listings[d]) {
        var d :| 0 <= d < |listings| && inv.caseName in CaseNames(listings[d]);
        if d < |init| {
          assert init[d] == listings[d];
        }
      }
      if exists d :: 0 <= d < |init| && inv.caseName in CaseNames(init[d]) {
        var d :| 0 <= d < |init| && inv.caseName in CaseNames(init[d]);
        assert listings[d] == init[d];
      }
    }
  }

  /** With the module's own exclusion table, `layout` is never yielded for any
      backend, and `mixins`, `mixin.blocks` and `unicode` never for `Html`. */
  lemma ExcludedCasesNeverYielded(listings: seq<seq<string>>, backends: seq<string>, inv: Invocation)
    requires Covered(backends, Table)
    requires inv in Walk(listings, backends, Table)
    ensures inv.caseName != "layout"
    ensures inv.backend == Html ==> inv.caseName !in {"mixins", "mixin.blocks", "unicode"}
  {
    WalkMembership(listings, backends, Table, inv);
    TableExclusions();
  }
}
