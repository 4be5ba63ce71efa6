# pypugjs cross-backend conformance runner, modelled in Dafny

The pypugjs test suite compiles each Pug fixture under `cases/` through every
template backend that could be imported: Jinja2, Jinja2 with custom variable
delimiters, Tornado, Django, Mako and plain HTML. It then compares each
rendered result with the fixture's expected HTML. This project models the
logic of that runner, which lives in `pypugjs/testsuite/test_cases.py`, and
proves properties of it:

- **Discovery** (`discovery.dfy`). A directory listing becomes a list of case
  names. Only names ending in `.pug` are kept, and the case name comes from
  Python's `replace('.pug', '')`. That call removes *every* occurrence of
  `.pug`, not just the one at the end. So `a.pug.pug` becomes case `a`, and
  the runner then opens `a.pug` (`DoubleExtensionLosesFile`). The result is
  not scanned again, so a case name can still hold `.pug`: `.p.pugug` gives
  `.pug` (`ReplaceDoesNotRescan`). Two files of one listing can give the
  same case name: `a.pug` and `a.pug.pug` both give `a` (`SharedCaseName`).
  The generator then yields `(a, backend)` twice
  (`Generator.SharedCaseNameYieldedTwice`). That is why
  `GenerateExactlyOnce` assumes distinct case names, and `GenerateCount`
  gives the count in general.
- **Exclusions** (`exclusions.dfy`). The static table from backend name to
  the cases that backend does not support. The generator indexes it directly,
  so every backend that can be registered must have an entry, and every one
  does.
- **Backends** (`backends.dfy`). The `processors` dictionary is modelled as a
  class (`Registry`) whose fields are updated in place. Keys are kept in
  insertion order. A processor is a function value from
  `(source, file name)` to either a rendered text or the
  `CurrentlyNotSupported` signal.
- **Generator** (`generator.dfy`). `test_case_generator`'s nested loops:
  directory listings of the walk, then registered backends, then case names.
  A `(case, backend)` pair is yielded unless the case is excluded for that
  backend. The loops are a method, proved equal to a specification function.
  Lemmas give membership, multiplicity, exactly-once, exclusion monotonicity
  and the fixed exclusions.
- **Runner** (`runner.dfy`). `run_case`: strip newlines (only `'\n'`) from
  both ends of the rendered and the expected text, then compare them exactly.
  A not-supported signal yields `Unsupported`, not a failure. Stripping is
  proved to equal an independent slice-based definition of `strip('\n')`.
- **Html backend** (`html_backend.dfy`). `html_process`'s include rewrite
  `re.sub(r'((^|\n)\s*include )(?!cases/)', '\\1cases/', src)`. It is
  modelled as a scan that tracks whether the regular expression's prefix
  `(^|\n)\s*` can end at the current position. That flag is proved equal to
  a direct description of the prefix (`LineInitial`). The whole output is
  then characterised (`RewriteIncludesInsertsCases`). It is the source with
  `cases/` spliced in right after each line-initial `include ` that is not
  already followed by `cases/`, and nowhere else.

The file contents, the directory listings, the engines and the Pug compiler
are inputs to the model (parameters or function values). None of them is
modelled.

## Model

| member | source | states |
|---|---|---|
| Discovery.DeriveCaseName | pypugjs/testsuite/test_cases.py:192 | `x.replace('.pug', '')`: every non-overlapping occurrence, left to right, is removed and the result is not rescanned; never longer than the file name. Its meaning is stated by `DeriveCaseNameOfSourceFile`, `DoubleExtensionLosesFile` and `ReplaceDoesNotRescan` |
| Discovery.CaseNames | pypugjs/testsuite/test_cases.py:191-192 | the filter on `endswith('.pug')` followed by the `replace` map, in listing order; stated by `CaseNameSources` |
| Discovery.ReplaceDoesNotRescan | pypugjs/testsuite/test_cases.py:192 | `.p.pugug` gives case name `.pug`: the removal does not look at its own result again |
| Discovery.SharedCaseName | pypugjs/testsuite/test_cases.py:191-192 | the listing `a.pug`, `a.pug.pug` gives the case names `a`, `a` |
| Discovery.CaseNameSources | pypugjs/testsuite/test_cases.py:191-192 | a name is a derived case name iff some listed file ends in `.pug` and derives to it |
| Discovery.DeriveCaseNameOfSourceFile | pypugjs/testsuite/test_cases.py:192 | for a name `n` with no `.pug` in it, `(n + ".pug").replace('.pug', '')` is exactly `n` |
| Discovery.SourceFileRoundTrip | pypugjs/testsuite/test_cases.py:192 | for a `.pug` file whose stem holds no `.pug`, the runner's `case + '.pug'` names the same file again |
| Discovery.DoubleExtensionLosesFile | pypugjs/testsuite/test_cases.py:192 | `a.pug.pug` is kept, becomes case `a`, and `a + '.pug'` is a different file |
| Exclusions.Table | pypugjs/testsuite/test_cases.py:174-180 | the `exclusions` dictionary literal, entry by entry; stated by `TableCoversRegistrable` and `TableExclusions` |
| Exclusions.IsExcluded | pypugjs/testsuite/test_cases.py:195 | `filename in exclusions[processor]`, defined only for a backend with an entry (the lookup faults otherwise); its use is stated by `Generator.GenerateMembership` and `Generator.ExclusionMonotone` |
| Exclusions.TableCoversRegistrable | pypugjs/testsuite/test_cases.py:174-180 | the table's keys are exactly the six names the module registers, so `exclusions[processor]` never faults |
| Exclusions.TableExclusions | pypugjs/testsuite/test_cases.py:174-180 | `layout` is excluded for every backend; `Html` excludes exactly `mixins`, `mixin.blocks`, `layout`, `unicode` |
| Backends.Registry.constructor | pypugjs/testsuite/test_cases.py:10 | the registry starts empty and valid |
| Backends.Registry.Register | pypugjs/testsuite/test_cases.py:148 | `processors[name] = p`: the map gets the entry; a new key is appended, an existing one keeps its place; keys stay distinct and registrable |
| Backends.RegisterPresent | pypugjs/testsuite/test_cases.py:17-62 | one `try: import … processors[name] = p except ImportError: pass` block: a fresh name is appended with its processor exactly when the engine is available, and nothing else changes |
| Backends.StartupOptional | pypugjs/testsuite/test_cases.py:17-62 | the Jinja2, Jinja2-variable_start_string and Tornado blocks in file order: the exact key sequence and dictionary |
| Backends.Startup | pypugjs/testsuite/test_cases.py:17-148 | registration in file order: each available optional engine, Django always, Html last; the exact key sequence and dictionary (later entries listed last) |
| Backends.RegisteredBackendsCovered | pypugjs/testsuite/test_cases.py:193-195 | every key of a valid registry has an exclusion entry, and the keys are distinct |
| Generator.Generate | pypugjs/testsuite/test_cases.py:191-196 | what the generator yields for one listing: backend-major and case-minor, skipping excluded pairs; stated by `GenerateCount`, `GenerateMembership` and `GenerateExactlyOnce` |
| Generator.Walk | pypugjs/testsuite/test_cases.py:189-196 | what the generator yields over every listing of the walk, in walk order; stated by `WalkMembership` and implemented by `TestCaseGenerator` |
| Generator.TestCaseGenerator | pypugjs/testsuite/test_cases.py:189-196 | the nested loops produce exactly the walk-major, backend-major, case-minor sequence of non-excluded pairs |
| Generator.ListingLoop | pypugjs/testsuite/test_cases.py:193-196 | the loop over the registered backends yields, backend by backend, each backend's non-excluded pairs |
| Generator.BackendLoop | pypugjs/testsuite/test_cases.py:194-196 | the loop over one listing's case names yields exactly the non-excluded cases, in order, paired with the backend |
| Generator.GenerateCount | pypugjs/testsuite/test_cases.py:193-196 | a pair occurs (times its case name is derived) × (times its backend is listed) if its backend is registered and it is not excluded, otherwise never |
| Generator.GenerateMembership | pypugjs/testsuite/test_cases.py:191-196 | a pair is yielded for a listing iff its backend is registered, its case is derived from the listing and it is not excluded |
| Generator.GenerateExactlyOnce | pypugjs/testsuite/test_cases.py:193-196 | with distinct keys and distinct case names, every non-excluded pair is yielded exactly once per listing |
| Generator.SharedCaseNameYieldedTwice | pypugjs/testsuite/test_cases.py:191-196 | without distinct case names a pair is yielded twice for one listing: `a.pug` and `a.pug.pug` give `(a, Django)` twice |
| Generator.ExclusionMonotone | pypugjs/testsuite/test_cases.py:195 | adding `c` to `b`'s exclusion set removes exactly the pair `(c, b)` from the sequence and adds nothing |
| Generator.WalkMembership | pypugjs/testsuite/test_cases.py:189-196 | over the whole walk, a pair is yielded iff its backend is registered, it is not excluded and some listing derives its case |
| Generator.ExcludedCasesNeverYielded | pypugjs/testsuite/test_cases.py:174-196 | with the module's table, `layout` is never yielded, and `mixins`, `mixin.blocks`, `unicode` never for `Html` |
| Runner.StripNewlines | pypugjs/testsuite/test_cases.py:161-166 | `s.strip('\n')`, applied to both the expected and the rendered text; stated by `StripNewlinesIsTrim`, whose slice-based definition does not use it |
| Runner.StripNewlinesIsTrim | pypugjs/testsuite/test_cases.py:161 | `strip('\n')` yields exactly the slice whose outside is all newlines and which neither starts nor ends with one (both directions) |
| Runner.StripNewlinesBoundary | pypugjs/testsuite/test_cases.py:166 | the stripped text neither starts nor ends with `'\n'` |
| Runner.StripNewlinesIdempotent | pypugjs/testsuite/test_cases.py:166 | stripping a stripped text changes nothing |
| Runner.StripNewlinesIgnoresOuterNewlines | pypugjs/testsuite/test_cases.py:161 | texts differing only in leading and trailing newlines strip to the same text |
| Runner.StripNewlinesKeepsOtherChars | pypugjs/testsuite/test_cases.py:166 | stripping removes newlines only: every other character keeps its count |
| Runner.StripNewlinesKeepsInteriorDifference | pypugjs/testsuite/test_cases.py:166-169 | one extra interior non-newline character (a space, say) still makes the stripped texts differ |
| Runner.Judge | pypugjs/testsuite/test_cases.py:165-172 | not-supported iff outcome `Unsupported`; otherwise `Pass` iff the stripped texts are equal, and a `Fail` carries both stripped texts |
| Runner.JudgeIgnoresOuterNewlines | pypugjs/testsuite/test_cases.py:160-169 | expected and rendered texts differing only in outer newlines pass |
| Runner.JudgeDetectsInteriorDifference | pypugjs/testsuite/test_cases.py:166-169 | a rendered text with one extra interior non-newline character fails |
| Runner.RunCase | pypugjs/testsuite/test_cases.py:150-172 | the processor is called with the source and `case + '.pug'`; `Unsupported` iff it signals not-supported, otherwise `Pass` iff stripped texts are equal |
| Runner.GeneratedInvocationsRunnable | pypugjs/testsuite/test_cases.py:153 | every generated invocation's backend has a processor, so `processors[process]` never faults |
| HtmlBackend.RewriteFrom | pypugjs/testsuite/test_cases.py:145 | the `re.sub` scan over the rest of the text, given the line-start flag; stated by `RewriteFromSplices` |
| HtmlBackend.RewriteIncludes | pypugjs/testsuite/test_cases.py:145 | the `re.sub` of the include pattern with replacement `\\1cases/` over the whole source; stated by `RewriteIncludesInsertsCases` |
| HtmlBackend.HtmlSource | pypugjs/testsuite/test_cases.py:143-145 | the source after the `'include' in src` guard and the rewrite; stated by `HtmlProcessRewritesIncludes` |
| HtmlBackend.HtmlProcess | pypugjs/testsuite/test_cases.py:141-146 | `html_process` as a processor over a compiler parameter; stated by `HtmlProcessRewritesIncludes` |
| HtmlBackend.InsertionPointsExact | pypugjs/testsuite/test_cases.py:145 | an index is an insertion point iff the regular expression matches with its `include ` right before it: line-initial, and not followed by `cases/` (both directions) |
| HtmlBackend.RewriteFromSplices | pypugjs/testsuite/test_cases.py:145 | from any index, the scan with the flag set as `LineInitial` gives the source with `cases/` spliced in at that index's insertion points |
| HtmlBackend.RewriteIncludesInsertsCases | pypugjs/testsuite/test_cases.py:145 | the output is the source with `cases/` inserted right after each line-initial `include ` that lacks it, and nowhere else; it is longer by `cases/` once per match |
| HtmlBackend.RewriteIncludesKeepsPrefixedLine | pypugjs/testsuite/test_cases.py:145 | a line-initial `include cases/` gets no insertion, in any source, including one that also has unprefixed lines |
| HtmlBackend.StateAfterIsLineInitial | pypugjs/testsuite/test_cases.py:145 | the scan's flag after `s[..k]` holds iff the regular expression's prefix can end at `k` (all-whitespace prefix, or a newline then only whitespace) |
| HtmlBackend.RewriteIncludesPrefixed | pypugjs/testsuite/test_cases.py:145 | in the output, every line-initial `include ` is followed by `cases/` |
| HtmlBackend.RewriteIncludesKeepsPrefixed | pypugjs/testsuite/test_cases.py:145 | a source whose every line-initial `include ` already reads `include cases/` is unchanged as a whole. The per-line case is `RewriteIncludesKeepsPrefixedLine` |
| HtmlBackend.RewriteIncludesIdempotent | pypugjs/testsuite/test_cases.py:143-145 | rewriting twice equals rewriting once |
| HtmlBackend.RewriteIncludesWithoutInclude | pypugjs/testsuite/test_cases.py:143-145 | a source without `include` is unchanged |
| HtmlBackend.HtmlProcessRewritesIncludes | pypugjs/testsuite/test_cases.py:141-146 | `html_process` hands the compiler the rewritten source whatever the file name; the `'include' in src` guard changes nothing |

## Left out

- The Jinja2, Tornado, Django and Mako environments and their processing functions (lines 17-136) wrap libraries that are not part of this model. Each registered processor is a function value supplied by the caller.
- Whether an engine can be imported depends on the environment. Each optional engine is an `Option` input to `Backends.Startup`. Django's `ImportError` is re-raised, which aborts the test module, so Django is a mandatory input rather than an optional one.
- `os.walk` and the `codecs.open` reads are I/O. Directory listings and file contents are inputs, and a missing fixture file (an `IOError` in the source) is not modelled. The walk's directory name is ignored by the source too: `run_case` always reads `cases/<case>.pug`.
- The `six.binary_type` decode branches (lines 156-157, 162-163) are not modelled. Texts are modelled as already-decoded strings.
- `pypugjs.ext.html.process_pugjs` and `pypugjs.utils.process` are the compiler itself. `HtmlBackend.HtmlProcess` takes the compiler as a parameter.
- A processor that raises anything other than `CurrentlyNotSupported` is not modelled. Such an error propagates as a test error, and results here are only a text or the not-supported signal.
- The `print` diagnostics, nose's `with_setup`, and the empty `setup_func` and `teardown_func` have no behaviour.
- The generator yields lazily. It is modelled as the finite sequence it enumerates.
- Key order follows Python 3.7+ dictionaries (insertion order). Under Python 2 the order of `processors.keys()` is unspecified.
- `\s` is modelled as Python 3's Unicode whitespace (`str.isspace`). Python 2 without the `UNICODE` flag matches ASCII whitespace only.
- Runner.RunCase: requires the backend to be registered. In the source the `processors[process]` lookup raises `KeyError` otherwise. `Runner.GeneratedInvocationsRunnable` proves that no generated invocation reaches that case.
- Backends.Registry.Register: requires the name to be one of the six registrable backend names, which are the only names the test module ever assigns.
- The exclusion lookup is modelled as the source writes it: a backend without an entry would fault, and none can be registered. It is not modelled as "no entry means no exclusions".
