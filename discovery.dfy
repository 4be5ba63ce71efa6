/** Case discovery: keep the file names of a directory listing that end in the
    source extension and derive each case name with Python's
    `name.replace('.pug', '')`, which removes EVERY occurrence of the extension,
    scanning left to right without overlap, not just the trailing one. The
    result is not scanned again, so a case name can still hold `.pug`
    (`.p.pugug` gives `.pug`), and two files can give the same case name
    (`a.pug` and `a.pug.pug` both give `a`). */
module Discovery {
  import opened Text

  const SourceExtension: string := ".pug"

  /** `fileName.replace('.pug', '')` */
  function DeriveCaseName(fileName: string): (name: string)
    ensures |name| <= |fileName|
    decreases |fileName|
  {
    if fileName == [] then []
    else if StartsWith(fileName, SourceExtension) then DeriveCaseName(fileName[|SourceExtension|..])
    else [fileName[0]] + DeriveCaseName(fileName[1..])
  }

  /** `list(map(replace, filter(endswith('.pug'), fileNames)))` */
  function CaseNames(fileNames: seq<string>): (names: seq<string>)
    ensures |names| <= |fileNames|
  {
    if fileNames == [] then []
    else (if EndsWith(fileNames[0], SourceExtension) then [DeriveCaseName(fileNames[0])] else [])
         + CaseNames(fileNames[1..])
  }

  /** The extension occurs nowhere in `n`. Names without this property need
      not derive back to themselves: see `DoubleExtensionLosesFile` and
      `ReplaceDoesNotRescan`. */
  predicate FreeOfExtension(n: string) {
    forall i: nat :: i <= |n| ==> !OccursAt(n, SourceExtension, i)
  }

  /** Exactly the file names that end in the extension contribute a case name,
      and each contributes the name obtained by removing the extension. */
  lemma {:induction false} CaseNameSources(fileNames: seq<string>, c: string)
    ensures c in CaseNames(fileNames) <==>
            exists i :: 0 <= i < |fileNames| && EndsWith(fileNames[i], SourceExtension) && DeriveCaseName(fileNames[i]) == c
  {
    if fileNames != [] {
      CaseNameSources(fileNames[1..], c);
      var rest := fileNames[1..];
      if exists i :: 0 <= i < |rest| && EndsWith(rest[i], SourceExtension) && DeriveCaseName(rest[i]) == c {
        var i :| 0 <= i < |rest| && EndsWith(rest[i], SourceExtension) && DeriveCaseName(rest[i]) == c;
        assert fileNames[i + 1] == rest[i];
      }
      if exists i :: 0 <= i < |fileNames| && EndsWith(fileNames[i], SourceExtension) && DeriveCaseName(fileNames[i]) == c {
        var i :| 0 <= i < |fileNames| && EndsWith(fileNames[i], SourceExtension) && DeriveCaseName(fileNames[i]) == c;
        if i > 0 {
          assert rest[i - 1] == fileNames[i];
        }
      }
    }
  }

  /** A name without the extension in it, followed by the extension, derives
      back to exactly that name. */
  lemma {:induction false} DeriveCaseNameOfSourceFile(n: string)
    requires FreeOfExtension(n)
    ensures DeriveCaseName(n + SourceExtension) == n
    decreases |n|
  {
    var f := n + SourceExtension;
    if n == [] {
      assert f == SourceExtension;
      assert f[|SourceExtension|..] == [];
    } else {
      ExtensionNotInFront(n);
      FreeOfExtensionTail(n);
      assert f[1..] == n[1..] + SourceExtension;
      DeriveCaseNameOfSourceFile(n[1..]);
      assert [n[0]] + n[1..] == n;
    }
  }

  lemma ExtensionNotInFront(n: string)
    requires n != [] && FreeOfExtension(n)
    ensures !StartsWith(n + SourceExtension, SourceExtension)
  {
    var f := n + SourceExtension;
    if |n| >= |SourceExtension| {
      assert f[..|SourceExtension|] == n[..|SourceExtension|];
      assert !OccursAt(n, SourceExtension, 0);
    } else {
      assert f[|n|] == '.';
      assert SourceExtension[|n|] != '.';
    }
  }

  lemma FreeOfExtensionTail(n: string)
    requires n != [] && FreeOfExtension(n)
    ensures FreeOfExtension(n[1..])
  {
    forall i: nat | i <= |n[1..]| ensures !OccursAt(n[1..], SourceExtension, i) {
      assert !OccursAt(n, SourceExtension, i + 1);
      if i + |SourceExtension| <= |n[1..]| {
        assert n[1..][i..i + |SourceExtension|] == n[i + 1..i + 1 + |SourceExtension|];
      }
    }
  }

  /** For a source file whose name holds the extension only at its end, the
      case runner's `case + '.pug'` names that same file again. */
  lemma SourceFileRoundTrip(fileName: string)
    requires EndsWith(fileName, SourceExtension)
    requires FreeOfExtension(fileName[..|fileName| - |SourceExtension|])
    ensures DeriveCaseName(fileName) + SourceExtension == fileName
  {
    var n := fileName[..|fileName| - |SourceExtension|];
    assert fileName == n + SourceExtension;
    DeriveCaseNameOfSourceFile(n);
  }

  /** Without that condition the round trip fails: `a.pug.pug` is discovered
      as case `a`, whose runner then opens `a.pug`. */
  lemma DoubleExtensionLosesFile()
    ensures EndsWith("a.pug.pug", SourceExtension)
    ensures DeriveCaseName("a.pug.pug") == "a"
    ensures DeriveCaseName("a.pug.pug") + SourceExtension != "a.pug.pug"
  {
    assert StartsWith(".pug.pug", SourceExtension);
    assert ".pug.pug"[4..] == ".pug";
    assert StartsWith(".pug", SourceExtension);
    assert ".pug"[4..] == "";
    assert "a.pug.pug"[..4] == "a.pu" != SourceExtension;
    assert "a.pug.pug"[1..] == ".pug.pug";
  }

  /** `replace` does not scan its own result again: removing the one `.pug`
      in `.p.pugug` leaves another. */
  lemma ReplaceDoesNotRescan()
    ensures DeriveCaseName(".p.pugug") == ".pug"
  {
    assert ".p.pugug"[..4] == ".p.p" != SourceExtension;
    assert ".p.pugug"[1..] == "p.pugug";
    assert "p.pugug"[..4] == "p.pu" != SourceExtension;
    assert "p.pugug"[1..] == ".pugug";
    assert StartsWith(".pugug", SourceExtension);
    assert ".pugug"[4..] == "ug";
    assert "ug"[1..] == "g" && "g"[1..] == "";
  }

  /** Two files of one listing can give the same case name. */
  lemma SharedCaseName()
    ensures CaseNames(["a.pug", "a.pug.pug"]) == ["a", "a"]
  {
    DoubleExtensionLosesFile();
    assert "a.pug"[..4] == "a.pu" != SourceExtension;
    assert "a.pug"[1..] == ".pug" && ".pug"[4..] == "";
    assert StartsWith(".pug", SourceExtension);
    assert EndsWith("a.pug", SourceExtension) by { assert "a.pug"[1..] == SourceExtension; }
    assert ["a.pug", "a.pug.pug"][1..] == ["a.pug.pug"];
    assert ["a.pug.pug"][1..] == [];
  }
}
