/**
 * The linter's entry point (`main`): runs the document check, then the
 * code-directory check, and ends the process with status 1 when either
 * recorded a violation and 0 otherwise. The process-wide `hasError` flag is
 * a local variable of `Run`; the exit is the returned `Outcome`.
 */
module Lint {
  import opened NamingRules
  import opened FileTree
  import DocumentCheck
  import CodeDirCheck

  /**
   * How the process ends: with an exit status, or abnormally because
   * `readdirSync` threw on a root that exists but is not a directory.
   */
  datatype Outcome = Exited(code: int) | Aborted(at: Path)

  /** The run over the working directory `cwd`, check by check. */
  function LintOutcome(cwd: seq<Entry>): Outcome {
    var docs := DocumentCheck.DocumentReport(cwd);
    if docs.Failed? then Aborted(docs.at)
    else
      var code := CodeDirCheck.CodeReport(cwd);
      if code.Failed? then Aborted(code.at)
      else
        var hasError := (docs.Checked? && |docs.violations| > 0) || |code.violations| > 0;
        Exited(if hasError then 1 else 0)
  }

  /** `main`: both checks in order, the shared `hasError` flag, and the exit. */
  method Run(cwd: seq<Entry>) returns (outcome: Outcome)
    ensures outcome == LintOutcome(cwd)
  {
    var hasError := false;
    var docs := DocumentCheck.CheckDocumentNaming(cwd);
    match docs {
      case Failed(at) => return Aborted(at);
      case Skipped =>
      case Checked(errors) =>
        if |errors| > 0 {
          hasError := true;
        }
    }
    var code := CodeDirCheck.CheckCodeDirNaming(cwd);
    match code {
      case Failed(at) => return Aborted(at);
      case Checked(errors) =>
        if |errors| > 0 {
          hasError := true;
        }
    }
    if hasError {
      outcome := Exited(1);
    } else {
      outcome := Exited(0);
    }
  }

  /** Some `.md` file under `docs`, reached along `rel`, breaks the document rule. */
  ghost predicate DocFileReported(cwd: seq<Entry>, rel: Path) {
    var docs := Resolve(cwd, DocumentCheck.DocsRoot);
    && docs.Directory?
    && Reaches(docs.children, rel, false)
    && IsReportedDoc(rel[|rel| - 1])
  }

  /** The directory at `p`, 1 to 5 levels below a code root, breaks the code-directory rule. */
  ghost predicate CodeDirReported(cwd: seq<Entry>, p: Path) {
    && |p| > 0 && p[0] in CodeDirCheck.CodeRoots
    && Resolve(cwd, p[0]).Directory?
    && |p| <= CodeDirCheck.MaxDepth + 2
    && Reaches(Resolve(cwd, p[0]).children, p[1..], true)
    && IsCodeDirViolation(p[|p| - 1])
  }

  /** The document check records a violation exactly when some reported `.md` file exists. */
  lemma DocumentReportNonEmpty(cwd: seq<Entry>)
    requires DocumentCheck.DocumentReport(cwd).Checked?
    ensures |DocumentCheck.DocumentReport(cwd).violations| > 0 <==> exists rel :: DocFileReported(cwd, rel)
  {
    var children := Resolve(cwd, DocumentCheck.DocsRoot).children;
    var dir := [DocumentCheck.DocsRoot];
    var vs := DocumentCheck.DocumentReport(cwd).violations;
    if |vs| > 0 {
      var v := vs[0];
      DocumentCheck.DocWalkPaths(dir, children);
      var rel := v.path[|dir|..];
      assert v.path == dir + rel;
      DocumentCheck.DocWalkMembers(dir, children, rel, v.suggestion);
      assert DocFileReported(cwd, rel);
    }
    if rel :| DocFileReported(cwd, rel) {
      DocumentCheck.DocWalkMembers(dir, children, rel, StripHyphens(rel[|rel| - 1]));
    }
  }

  /** The code check records a violation exactly when some violating directory lies within reach. */
  lemma CodeReportNonEmpty(cwd: seq<Entry>)
    requires CodeDirCheck.CodeReport(cwd).Checked?
    ensures |CodeDirCheck.CodeReport(cwd).violations| > 0 <==> exists p :: CodeDirReported(cwd, p)
  {
    var vs := CodeDirCheck.CodeReport(cwd).violations;
    if |vs| > 0 {
      CodeDirCheck.RootsMembers(cwd, CodeDirCheck.CodeRoots, vs[0]);
      assert CodeDirReported(cwd, vs[0]);
    }
    if p :| CodeDirReported(cwd, p) {
      CodeDirCheck.RootsMembers(cwd, CodeDirCheck.CodeRoots, p);
    }
  }

  /**
   * A run that is not aborted exits with 0 or 1, and with 1 exactly when
   * some reported `.md` file lies under `docs` or some violating directory
   * lies 1 to 5 levels below a code root.
   */
  lemma ExitStatus(cwd: seq<Entry>)
    requires LintOutcome(cwd).Exited?
    ensures LintOutcome(cwd).code == 0 || LintOutcome(cwd).code == 1
    ensures LintOutcome(cwd).code == 1 <==>
      (exists rel :: DocFileReported(cwd, rel)) || (exists p :: CodeDirReported(cwd, p))
  {
    var docs := DocumentCheck.DocumentReport(cwd);
    if docs.Checked? {
      DocumentReportNonEmpty(cwd);
    } else {
      assert forall rel :: !DocFileReported(cwd, rel);
    }
    CodeReportNonEmpty(cwd);
  }

  /**
   * The run ends abnormally exactly when `docs` or one of the code roots
   * exists as something other than a directory.
   */
  lemma AbortedWhen(cwd: seq<Entry>)
    ensures LintOutcome(cwd).Aborted? <==>
      || Resolve(cwd, DocumentCheck.DocsRoot).NotADirectory?
      || exists k :: 0 <= k < |CodeDirCheck.CodeRoots| && Resolve(cwd, CodeDirCheck.CodeRoots[k]).NotADirectory?
  {
    CodeDirCheck.RootsFailed(cwd, CodeDirCheck.CodeRoots);
  }

  /**
   * An aborted run names `docs` when `docs` is not a directory, and otherwise
   * the first code root, in the order of the list, that is not one.
   */
  lemma AbortedAt(cwd: seq<Entry>)
    requires LintOutcome(cwd).Aborted?
    ensures Resolve(cwd, DocumentCheck.DocsRoot).NotADirectory? ==>
      LintOutcome(cwd).at == [DocumentCheck.DocsRoot]
    ensures !Resolve(cwd, DocumentCheck.DocsRoot).NotADirectory? ==> exists k ::
      && 0 <= k < |CodeDirCheck.CodeRoots|
      && LintOutcome(cwd).at == [CodeDirCheck.CodeRoots[k]]
      && Resolve(cwd, CodeDirCheck.CodeRoots[k]).NotADirectory?
      && (forall j :: 0 <= j < k ==> !Resolve(cwd, CodeDirCheck.CodeRoots[j]).NotADirectory?)
  {
    if !Resolve(cwd, DocumentCheck.DocsRoot).NotADirectory? {
      CodeDirCheck.RootsFailedAt(cwd, CodeDirCheck.CodeRoots);
    }
  }

  /** In a real tree neither check reports a path twice. */
  lemma NoPathTwice(cwd: seq<Entry>)
    requires WellFormed(cwd)
    ensures DocumentCheck.DocumentReport(cwd).Checked? ==>
      DocumentCheck.DistinctPaths(DocumentCheck.DocumentReport(cwd).violations)
    ensures CodeDirCheck.CodeReport(cwd).Checked? ==>
      CodeDirCheck.NoRepeats(CodeDirCheck.CodeReport(cwd).violations)
  {
    if Resolve(cwd, DocumentCheck.DocsRoot).Directory? {
      ResolveWellFormed(cwd, DocumentCheck.DocsRoot);
      DocumentCheck.DocWalkDistinct([DocumentCheck.DocsRoot], Resolve(cwd, DocumentCheck.DocsRoot).children);
    }
    if CodeDirCheck.CodeReport(cwd).Checked? {
      CodeDirCheck.CodeRootsDistinct();
      CodeDirCheck.RootsDistinct(cwd, CodeDirCheck.CodeRoots);
    }
  }

  /** One directory listed alone: its own finding, then everything below it. */
  lemma SingleDir(dir: Path, name: string, children: seq<Entry>, depth: nat)
    requires depth <= CodeDirCheck.MaxDepth
    ensures CodeDirCheck.CodeWalk(dir, [Dir(name, children)], depth) ==
      (if IsCodeDirViolation(name) then [dir + [name]] else []) + CodeDirCheck.CodeWalk(dir + [name], children, depth + 1)
  {
  }

  /** Only `src` among the code roots is present in a working directory listing just `src`. */
  lemma OnlySrc(children: seq<Entry>)
    ensures CodeDirCheck.CodeReport([Dir("src", children)]) ==
      CodeDirCheck.Checked(CodeDirCheck.CodeWalk(["src"], children, 0))
  {
    var cwd, roots := [Dir("src", children)], CodeDirCheck.CodeRoots;
    CodeDirCheck.RootsAbsentSuffix(cwd, roots, 1);
    assert roots[..1] == ["src"] && roots[..1][..0] == [];
  }

  /** No code root is present in a working directory listing only `docs`. */
  lemma OnlyDocs(children: seq<Entry>)
    ensures CodeDirCheck.CodeReport([Dir("docs", children)]) == CodeDirCheck.Checked([])
  {
    CodeDirCheck.RootsAbsentSuffix([Dir("docs", children)], CodeDirCheck.CodeRoots, 0);
  }

  /** A reported document whose name has no hyphen is suggested under its own name. */
  lemma HyphenFreeEntry(dir: Path, name: string)
    requires IsReportedDoc(name) && '-' !in name
    ensures DocumentCheck.DocEntry(dir, File(name)) == [DocumentCheck.Violation(dir + [name], name)]
  {
    StripHyphensIdentity(name);
  }

  /** The document check over a working directory holding only `docs/<name>`. */
  lemma SingleDocReport(name: string)
    ensures var cwd := [Dir("docs", [File(name)])];
      DocumentCheck.DocumentReport(cwd) == DocumentCheck.Checked(DocumentCheck.DocEntry(["docs"], File(name)))
  {
    var files := [File(name)];
    assert files[..0] == [];
    assert DocumentCheck.DocWalk(["docs"], files) == DocumentCheck.DocEntry(["docs"], File(name));
  }

  /** The run over a working directory holding only `docs/readme.md`. */
  lemma ReadmeRun(name: string)
    requires name == "readme.md"
    ensures var cwd := [Dir("docs", [File(name)])];
      && DocumentCheck.DocumentReport(cwd) == DocumentCheck.Checked([DocumentCheck.Violation(["docs", name], name)])
      && LintOutcome(cwd) == Exited(1)
  {
    assert name[6..] == ".md";
    assert IsReportedDoc(name);
    HyphenFreeEntry(["docs"], name);
    assert ["docs"] + [name] == ["docs", name];
    SingleDocReport(name);
    OnlyDocs([File(name)]);
  }

  /** `docs/readme.md` is reported with the unchanged suggestion `readme.md`, and the run fails. */
  lemma ReadmeIsReported()
    ensures var cwd := [Dir("docs", [File("readme.md")])];
      && DocumentCheck.DocumentReport(cwd)
         == DocumentCheck.Checked([DocumentCheck.Violation(["docs", "readme.md"], "readme.md")])
      && LintOutcome(cwd) == Exited(1)
  {
    ReadmeRun("readme.md");
  }

  /** `src/MyComponent/` is reported, and the run fails. */
  lemma UpperCaseDirIsReported()
    ensures var cwd := [Dir("src", [Dir("MyComponent", [])])];
      && CodeDirCheck.CodeReport(cwd) == CodeDirCheck.Checked([["src", "MyComponent"]])
      && LintOutcome(cwd) == Exited(1)
  {
    var cwd := [Dir("src", [Dir("MyComponent", [])])];
    assert IsCodeDirViolation("MyComponent") by {
      assert 'M' == "MyComponent"[0];
    }
    SingleDir(["src"], "MyComponent", [], 0);
    assert ["src"] + ["MyComponent"] == ["src", "MyComponent"];
    assert CodeDirCheck.CodeWalk(["src", "MyComponent"], [], 1) == [];
    OnlySrc([Dir("MyComponent", [])]);
    assert Resolve(cwd, "docs") == Absent;
  }

  /** A conforming directory holding one entry passes on what is found below it. */
  lemma PassThrough(dir: Path, name: string, child: Entry, depth: nat, found: seq<Path>)
    requires depth <= CodeDirCheck.MaxDepth && !IsCodeDirViolation(name)
    requires CodeDirCheck.CodeWalk(dir + [name], [child], depth + 1) == found
    ensures CodeDirCheck.CodeWalk(dir, [Dir(name, [child])], depth) == found
  {
  }

  /** The walk of `src/a/b` in `DepthBoundary`: only `BadName`, at level 5, is recorded. */
  lemma DepthBoundaryLower(c: Entry, found: seq<Path>)
    requires c == Dir("c", [Dir("d", [Dir("BadName", [Dir("Deeper", [])])])])
    requires found == [["src", "a", "b", "c", "d", "BadName"]]
    ensures CodeDirCheck.CodeWalk(["src", "a", "b"], [c], 2) == found
  {
    var bad := Dir("BadName", [Dir("Deeper", [])]);
    var p4 := ["src", "a", "b", "c", "d"];
    var p3 := p4[..4];
    assert IsCodeDirViolation("BadName") by {
      assert 'B' == "BadName"[0];
    }
    assert p4 + ["BadName"] == found[0];
    assert CodeDirCheck.CodeWalk(p4 + ["BadName"], [Dir("Deeper", [])], 5) == [];
    SingleDir(p4, "BadName", [Dir("Deeper", [])], 4);
    assert p3 + ["d"] == p4;
    PassThrough(p3, "d", bad, 3, found);
    assert ["src", "a", "b"] + ["c"] == p3;
    PassThrough(["src", "a", "b"], "c", Dir("d", [bad]), 2, found);
  }

  /** The walk of `src` in `DepthBoundary`. */
  lemma DepthBoundaryWalk(a: Entry, found: seq<Path>)
    requires a == Dir("a", [Dir("b", [Dir("c", [Dir("d", [Dir("BadName", [Dir("Deeper", [])])])])])])
    requires found == [["src", "a", "b", "c", "d", "BadName"]]
    ensures CodeDirCheck.CodeWalk(["src"], [a], 0) == found
  {
    var c := Dir("c", [Dir("d", [Dir("BadName", [Dir("Deeper", [])])])]);
    DepthBoundaryLower(c, found);
    assert ["src", "a"] + ["b"] == ["src", "a", "b"];
    PassThrough(["src", "a"], "b", c, 1, found);
    assert ["src"] + ["a"] == ["src", "a"];
    PassThrough(["src"], "a", Dir("b", [c]), 0, found);
  }

  /**
   * The depth boundary: below `src/a/b/c/d`, the directory `BadName` five
   * levels down is reported, and `Deeper` six levels down is never looked at.
   */
  lemma DepthBoundary()
    ensures var cwd := [Dir("src", [Dir("a", [Dir("b", [Dir("c", [Dir("d",
              [Dir("BadName", [Dir("Deeper", [])])])])])])])];
      && CodeDirCheck.CodeReport(cwd) == CodeDirCheck.Checked([["src", "a", "b", "c", "d", "BadName"]])
      && LintOutcome(cwd) == Exited(1)
  {
    var a := Dir("a", [Dir("b", [Dir("c", [Dir("d", [Dir("BadName", [Dir("Deeper", [])])])])])]);
    var cwd := [Dir("src", [a])];
    DepthBoundaryWalk(a, [["src", "a", "b", "c", "d", "BadName"]]);
    OnlySrc([a]);
    assert Resolve(cwd, "docs") == Absent;
  }

  /** With no `docs` and no code roots the run passes. */
  lemma EmptyTreePasses()
    ensures LintOutcome([]) == Exited(0)
  {
    CodeDirCheck.RootsAbsentSuffix([], CodeDirCheck.CodeRoots, 0);
  }
}
