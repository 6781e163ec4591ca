/**
 * The code-directory check (`checkCodeDirNaming`): a depth-bounded walk of
 * each code root present in the working directory that reports every
 * directory whose name is not kebab-case.
 */
module CodeDirCheck {
  import opened NamingRules
  import opened FileTree

  /** The outcome of the check: the paths pushed to `errors`, or the root `readdirSync` throws on. */
  datatype Report = Checked(violations: seq<Path>) | Failed(at: Path)

  /** The roots the check visits, in this order. */
  const CodeRoots: seq<string> := ["src", "components", "pages", "lib", "utils"]

  /** The largest `depth` at which `checkDir(dir, depth)` still reads `dir`. */
  const MaxDepth: nat := 4

  /**
   * What `checkDir(dir, depth)` pushes for the listing `files` of `dir`:
   * nothing once `depth` exceeds `MaxDepth`, otherwise the share of each
   * entry, in listing order.
   */
  function CodeWalk(dir: Path, files: seq<Entry>, depth: nat): seq<Path>
    decreases files, 0
  {
    if depth > MaxDepth || |files| == 0 then []
    else CodeWalk(dir, files[..|files| - 1], depth) + CodeEntry(dir, files[|files| - 1], depth)
  }

  /**
   * The share of one entry of `dir`: nothing for a file; for a directory,
   * its own path when its name breaks the rule, followed in every case by
   * what the walk one level deeper pushes.
   */
  function CodeEntry(dir: Path, file: Entry, depth: nat): seq<Path>
    decreases file, 1
  {
    match file
    case File(_) => []
    case Dir(name, children) =>
      (if IsCodeDirViolation(name) then [dir + [name]] else []) + CodeWalk(dir + [name], children, depth + 1)
  }

  /**
   * Every path recorded by `checkDir(dir, depth)` lies under one of the
   * entries of `dir`, at most `MaxDepth + 1 - depth` levels below `dir`.
   */
  lemma {:induction false} CodeWalkPaths(dir: Path, files: seq<Entry>, depth: nat)
    ensures forall p :: p in CodeWalk(dir, files, depth) ==>
      && |dir| < |p| && |p| + depth <= |dir| + MaxDepth + 1
      && p[..|dir|] == dir && p[|dir|] in NamesOf(files)
    decreases files, 0
  {
    if depth <= MaxDepth && |files| > 0 {
      var n := |files| - 1;
      CodeWalkPaths(dir, files[..n], depth);
      CodeEntryPaths(dir, files[n], depth);
      assert NamesOf(files[..n]) <= NamesOf(files) by {
        forall x | x in NamesOf(files[..n]) ensures x in NamesOf(files) {
          var i :| 0 <= i < n && files[..n][i].name == x;
          assert files[i].name == x;
        }
      }
      forall p | p in CodeEntry(dir, files[n], depth)
        ensures p[..|dir|] == dir && p[|dir|] == files[n].name
      {
        assert p[..|dir|] == p[..|dir| + 1][..|dir|];
        assert p[|dir|] == p[..|dir| + 1][|dir|];
      }
    }
  }

  /** `CodeWalkPaths` for the share of a single entry. */
  lemma {:induction false} CodeEntryPaths(dir: Path, file: Entry, depth: nat)
    requires depth <= MaxDepth
    ensures forall p :: p in CodeEntry(dir, file, depth) ==>
      && |dir| < |p| && |p| + depth <= |dir| + MaxDepth + 1
      && p[..|dir| + 1] == dir + [file.name]
    decreases file, 1
  {
    if file.Dir? {
      CodeWalkPaths(dir + [file.name], file.children, depth + 1);
    }
  }

  /**
   * `checkDir(dir, depth)` records `dir + rel` exactly when `rel` leads
   * through directories to a directory whose name breaks the rule and lies
   * 1 to `MaxDepth + 1 - depth` levels below `dir`. A violating directory
   * does not stop the descent: nothing about the directories along `rel`
   * is required.
   */
  lemma {:induction false} CodeWalkMembers(dir: Path, files: seq<Entry>, depth: nat, rel: Path)
    ensures dir + rel in CodeWalk(dir, files, depth) <==>
      && |rel| + depth <= MaxDepth + 1
      && Reaches(files, rel, true)
      && IsCodeDirViolation(rel[|rel| - 1])
    decreases files, 0
  {
    if depth > MaxDepth || |files| == 0 {
      assert |files| == 0 ==> !Reaches(files, rel, true);
    } else {
      var n := |files| - 1;
      ReachesSplit(files, rel, true);
      CodeWalkMembers(dir, files[..n], depth, rel);
      CodeEntryMembers(dir, files[n], depth, rel);
      if |rel| > 0 && files[n].name == rel[0] {
        assert ReachesVia(files, n, rel, true) <==>
          if |rel| == 1 then files[n].Dir?
          else files[n].Dir? && Reaches(files[n].children, rel[1..], true);
      }
    }
  }

  /** `CodeWalkMembers` for the share of a single entry. */
  lemma {:induction false} CodeEntryMembers(dir: Path, file: Entry, depth: nat, rel: Path)
    requires depth <= MaxDepth
    ensures dir + rel in CodeEntry(dir, file, depth) <==>
      && |rel| > 0 && file.name == rel[0] && file.Dir?
      && |rel| + depth <= MaxDepth + 1
      && (|rel| == 1 || Reaches(file.children, rel[1..], true))
      && IsCodeDirViolation(rel[|rel| - 1])
    decreases file, 1
  {
    var p := dir + rel;
    if file.File? {
    } else if |rel| == 0 || file.name != rel[0] {
      CodeEntryPaths(dir, file, depth);
      if |rel| > 0 {
        assert p[..|dir| + 1][|dir|] == rel[0];
      }
    } else {
      var name, children := file.name, file.children;
      var own := if IsCodeDirViolation(name) then [dir + [name]] else [];
      var below := CodeWalk(dir + [name], children, depth + 1);
      assert CodeEntry(dir, file, depth) == own + below;
      if |rel| > 1 {
        assert p == (dir + [name]) + rel[1..];
        CodeWalkMembers(dir + [name], children, depth + 1, rel[1..]);
        assert p !in own;
      } else {
        assert p == dir + [name];
        CodeWalkPaths(dir + [name], children, depth + 1);
        assert p !in below;
      }
    }
  }

  /** No path occurs twice in the list. */
  ghost predicate NoRepeats(ps: seq<Path>) {
    forall i, j :: 0 <= i < j < |ps| ==> ps[i] != ps[j]
  }

  /** In a real tree every directory is visited once, so no path is reported twice. */
  lemma {:induction false} CodeWalkDistinct(dir: Path, files: seq<Entry>, depth: nat)
    requires WellFormed(files)
    ensures NoRepeats(CodeWalk(dir, files, depth))
    decreases files, 0
  {
    if depth <= MaxDepth && |files| > 0 {
      var n := |files| - 1;
      var front, tail := CodeWalk(dir, files[..n], depth), CodeEntry(dir, files[n], depth);
      assert WellFormed(files[..n]);
      CodeWalkDistinct(dir, files[..n], depth);
      CodeWalkPaths(dir, files[..n], depth);
      CodeEntryPaths(dir, files[n], depth);
      CodeEntryDistinct(dir, files[n], depth);
      forall q | q in tail ensures q[|dir|] == files[n].name {
        assert q[|dir|] == q[..|dir| + 1][|dir|];
      }
      forall p | p in front ensures p !in tail {
        var k :| 0 <= k < n && files[..n][k].name == p[|dir|];
        assert files[k].name != files[n].name;
      }
      NoRepeatsConcat(front, tail);
    }
  }

  /** `CodeWalkDistinct` for the share of a single entry. */
  lemma {:induction false} CodeEntryDistinct(dir: Path, file: Entry, depth: nat)
    requires depth <= MaxDepth
    requires file.Dir? ==> WellFormed(file.children)
    ensures NoRepeats(CodeEntry(dir, file, depth))
    decreases file, 1
  {
    if file.Dir? {
      var name := file.name;
      var below := CodeWalk(dir + [name], file.children, depth + 1);
      CodeWalkDistinct(dir + [name], file.children, depth + 1);
      CodeWalkPaths(dir + [name], file.children, depth + 1);
      assert dir + [name] !in below;
    }
  }

  /**
   * `checkDir(dir, depth)`: returns at once when `depth` exceeds `MaxDepth`;
   * otherwise walks the listing `files` of `dir` in order, appending to
   * `errors` the path of every directory whose name breaks the rule and
   * descending into every directory, reported or not, one level deeper.
   */
  method CheckDir(dir: Path, files: seq<Entry>, depth: nat, errors: seq<Path>) returns (errors': seq<Path>)
    ensures errors' == errors + CodeWalk(dir, files, depth)
    decreases files
  {
    if depth > MaxDepth {
      return errors;
    }
    errors' := errors;
    var i := 0;
    while i < |files|
      invariant 0 <= i <= |files|
      invariant errors' == errors + CodeWalk(dir, files[..i], depth)
    {
      var file := files[i];
      var filePath := dir + [file.name];
      assert files[..i + 1][..i] == files[..i];
      assert CodeWalk(dir, files[..i + 1], depth) == CodeWalk(dir, files[..i], depth) + CodeEntry(dir, file, depth);
      if file.Dir? {
        if !IsKebabCase(file.name) || HasChinese(file.name) {
          errors' := errors' + [filePath];
        }
        errors' := CheckDir(filePath, file.children, depth + 1, errors');
      }
      i := i + 1;
    }
    assert files[..i] == files;
  }

  /**
   * What the check yields after visiting `roots` in order: a missing root is
   * passed over, a root that is not a directory stops the check, and the
   * violations of the others are concatenated.
   */
  function RootsReport(cwd: seq<Entry>, roots: seq<string>): Report
    decreases |roots|
  {
    if |roots| == 0 then Checked([])
    else
      var root := roots[|roots| - 1];
      match RootsReport(cwd, roots[..|roots| - 1])
      case Failed(at) => Failed(at)
      case Checked(vs) =>
        match Resolve(cwd, root)
        case Absent => Checked(vs)
        case NotADirectory => Failed([root])
        case Directory(children) => Checked(vs + CodeWalk([root], children, 0))
  }

  /** The code-directory check's result for the working directory `cwd`. */
  function CodeReport(cwd: seq<Entry>): Report {
    RootsReport(cwd, CodeRoots)
  }

  /**
   * `checkCodeDirNaming`: starts from an empty error list and runs
   * `checkDir(root)` for every code root that exists, in the order of
   * `CodeRoots`.
   */
  method CheckCodeDirNaming(cwd: seq<Entry>) returns (r: Report)
    ensures r == CodeReport(cwd)
  {
    var errors: seq<Path> := [];
    var i := 0;
    while i < |CodeRoots|
      invariant 0 <= i <= |CodeRoots|
      invariant RootsReport(cwd, CodeRoots[..i]) == Checked(errors)
    {
      var dirName := CodeRoots[i];
      assert CodeRoots[..i + 1][..i] == CodeRoots[..i];
      match Resolve(cwd, dirName) {
        case Absent =>
        case NotADirectory =>
          assert RootsReport(cwd, CodeRoots[..i + 1]) == Failed([dirName]);
          RootsFailedSticks(cwd, CodeRoots, i + 1);
          assert CodeRoots[..|CodeRoots|] == CodeRoots;
          return Failed([dirName]);
        case Directory(children) =>
          errors := CheckDir([dirName], children, 0, errors);
      }
      i := i + 1;
    }
    assert CodeRoots[..i] == CodeRoots;
    r := Checked(errors);
  }

  /** Once a root has stopped the check, later roots do not change the outcome. */
  lemma {:induction false} RootsFailedSticks(cwd: seq<Entry>, roots: seq<string>, k: nat)
    requires k <= |roots| && RootsReport(cwd, roots[..k]).Failed?
    ensures RootsReport(cwd, roots) == RootsReport(cwd, roots[..k])
    decreases |roots| - k
  {
    if k < |roots| {
      assert roots[..k + 1][..k] == roots[..k];
      RootsFailedSticks(cwd, roots, k + 1);
    } else {
      assert roots[..k] == roots;
    }
  }

  /** The check stops exactly when some root exists but is not a directory. */
  lemma {:induction false} RootsFailed(cwd: seq<Entry>, roots: seq<string>)
    ensures RootsReport(cwd, roots).Failed? <==>
      exists k :: 0 <= k < |roots| && Resolve(cwd, roots[k]).NotADirectory?
    decreases |roots|
  {
    if |roots| > 0 {
      var n := |roots| - 1;
      RootsFailed(cwd, roots[..n]);
      if RootsReport(cwd, roots[..n]).Failed? {
        var k :| 0 <= k < n && Resolve(cwd, roots[..n][k]).NotADirectory?;
        assert roots[..n][k] == roots[k];
      } else {
        forall j | 0 <= j < n ensures !Resolve(cwd, roots[j]).NotADirectory? {
          assert roots[..n][j] == roots[j];
        }
      }
    }
  }

  /** When the check stops, it stops at the first root that is not a directory. */
  lemma {:induction false} RootsFailedAt(cwd: seq<Entry>, roots: seq<string>)
    requires RootsReport(cwd, roots).Failed?
    ensures exists k ::
      && 0 <= k < |roots|
      && RootsReport(cwd, roots).at == [roots[k]]
      && Resolve(cwd, roots[k]).NotADirectory?
      && (forall j :: 0 <= j < k ==> !Resolve(cwd, roots[j]).NotADirectory?)
    decreases |roots|
  {
    var n := |roots| - 1;
    var prev := RootsReport(cwd, roots[..n]);
    if prev.Failed? {
      RootsFailedAt(cwd, roots[..n]);
      var k :|
        && 0 <= k < n
        && prev.at == [roots[..n][k]]
        && Resolve(cwd, roots[..n][k]).NotADirectory?
        && (forall j :: 0 <= j < k ==> !Resolve(cwd, roots[..n][j]).NotADirectory?);
      assert roots[..n][k] == roots[k];
      forall j | 0 <= j < k ensures !Resolve(cwd, roots[j]).NotADirectory? {
        assert roots[..n][j] == roots[j];
      }
    } else {
      RootsFailed(cwd, roots[..n]);
      forall j | 0 <= j < n ensures !Resolve(cwd, roots[j]).NotADirectory? {
        assert roots[..n][j] == roots[j];
      }
    }
  }

  /** What the walk of one present root records, stated over the full path. */
  lemma RootWalkMembers(root: string, children: seq<Entry>, p: Path)
    ensures p in CodeWalk([root], children, 0) <==>
      && |p| > 0 && p[0] == root
      && |p| <= MaxDepth + 2
      && Reaches(children, p[1..], true)
      && IsCodeDirViolation(p[|p| - 1])
  {
    CodeWalkPaths([root], children, 0);
    if |p| > 0 {
      assert p == [p[0]] + p[1..];
      CodeWalkMembers([root], children, 0, p[1..]);
      if p in CodeWalk([root], children, 0) {
        assert p[..1] == [root];
      }
    }
  }

  /**
   * A path is reported exactly when its first segment is one of the roots
   * and names a directory of the working directory, and the rest leads to a
   * directory 1 to `MaxDepth + 1` levels below that root whose name breaks
   * the rule. A missing root contributes nothing.
   */
  lemma {:induction false} RootsMembers(cwd: seq<Entry>, roots: seq<string>, p: Path)
    requires RootsReport(cwd, roots).Checked?
    ensures p in RootsReport(cwd, roots).violations <==>
      && |p| > 0 && p[0] in roots
      && Resolve(cwd, p[0]).Directory?
      && |p| <= MaxDepth + 2
      && Reaches(Resolve(cwd, p[0]).children, p[1..], true)
      && IsCodeDirViolation(p[|p| - 1])
    decreases |roots|
  {
    if |roots| > 0 {
      var n := |roots| - 1;
      var root := roots[n];
      assert RootsReport(cwd, roots[..n]).Checked?;
      RootsMembers(cwd, roots[..n], p);
      assert roots == roots[..n] + [root];
      if Resolve(cwd, root).Directory? {
        RootWalkMembers(root, Resolve(cwd, root).children, p);
      }
    }
  }

  /** Every reported path starts with the root it was found under. */
  lemma RootsHeads(cwd: seq<Entry>, roots: seq<string>)
    requires RootsReport(cwd, roots).Checked?
    ensures forall p :: p in RootsReport(cwd, roots).violations ==> |p| > 0 && p[0] in roots
  {
    forall p | p in RootsReport(cwd, roots).violations ensures |p| > 0 && p[0] in roots {
      RootsMembers(cwd, roots, p);
    }
  }

  /** The findings of the last root visited all start with that root. */
  lemma LastRootHeads(cwd: seq<Entry>, roots: seq<string>)
    requires |roots| > 0 && RootsReport(cwd, roots).Checked?
    ensures var n := |roots| - 1;
      && RootsReport(cwd, roots[..n]).Checked?
      && var front := RootsReport(cwd, roots[..n]).violations;
      && RootsReport(cwd, roots).violations[..|front|] == front
      && forall p :: p in RootsReport(cwd, roots).violations[|front|..] ==> |p| > 0 && p[0] == roots[n]
  {
    var n := |roots| - 1;
    if Resolve(cwd, roots[n]).Directory? {
      var children := Resolve(cwd, roots[n]).children;
      CodeWalkPaths([roots[n]], children, 0);
      forall p | p in CodeWalk([roots[n]], children, 0) ensures |p| > 0 && p[0] == roots[n] {
        assert p[0] == p[..1][0];
      }
    }
  }

  /**
   * With distinct roots, every violation under an earlier root precedes
   * every violation under a later one: the report lists the roots' findings
   * in the order of `roots`.
   */
  lemma {:induction false} RootsInOrder(cwd: seq<Entry>, roots: seq<string>, a: nat, b: nat, i: nat, j: nat)
    requires forall x, y :: 0 <= x < y < |roots| ==> roots[x] != roots[y]
    requires RootsReport(cwd, roots).Checked?
    requires a < b < |roots|
    requires i < |RootsReport(cwd, roots).violations| && j < |RootsReport(cwd, roots).violations|
    requires |RootsReport(cwd, roots).violations[i]| > 0 && RootsReport(cwd, roots).violations[i][0] == roots[a]
    requires |RootsReport(cwd, roots).violations[j]| > 0 && RootsReport(cwd, roots).violations[j][0] == roots[b]
    ensures i < j
    decreases |roots|
  {
    var n := |roots| - 1;
    var vs := RootsReport(cwd, roots).violations;
    LastRootHeads(cwd, roots);
    var front := RootsReport(cwd, roots[..n]).violations;
    RootsHeads(cwd, roots[..n]);
    assert roots[a] in roots[..n];
    if b == n {
      assert roots[n] !in roots[..n];
    } else {
      assert roots[b] in roots[..n];
      assert front[i] == vs[i] && front[j] == vs[j];
      RootsInOrder(cwd, roots[..n], a, b, i, j);
    }
  }

  /** With distinct roots over a real tree, no path is reported twice. */
  lemma {:induction false} RootsDistinct(cwd: seq<Entry>, roots: seq<string>)
    requires WellFormed(cwd)
    requires forall x, y :: 0 <= x < y < |roots| ==> roots[x] != roots[y]
    requires RootsReport(cwd, roots).Checked?
    ensures NoRepeats(RootsReport(cwd, roots).violations)
    decreases |roots|
  {
    if |roots| > 0 {
      var n := |roots| - 1;
      var root := roots[n];
      LastRootHeads(cwd, roots);
      RootsHeads(cwd, roots[..n]);
      RootsDistinct(cwd, roots[..n]);
      var vs := RootsReport(cwd, roots).violations;
      var front := RootsReport(cwd, roots[..n]).violations;
      var rest := vs[|front|..];
      if Resolve(cwd, root).Directory? {
        ResolveWellFormed(cwd, root);
        CodeWalkDistinct([root], Resolve(cwd, root).children, 0);
        assert rest == CodeWalk([root], Resolve(cwd, root).children, 0);
      } else {
        assert rest == [];
      }
      assert root !in roots[..n];
      NoRepeatsConcat(front, rest);
      assert vs == front + rest;
    }
  }

  /** Two lists without repeats and without a common path concatenate to one without repeats. */
  lemma NoRepeatsConcat(a: seq<Path>, b: seq<Path>)
    requires NoRepeats(a) && NoRepeats(b)
    requires forall p :: p in a ==> p !in b
    ensures NoRepeats(a + b)
  {
    forall i, j | 0 <= i < j < |a + b| ensures (a + b)[i] != (a + b)[j] {
      if i < |a| && j >= |a| {
        assert (a + b)[i] in a && (a + b)[j] == b[j - |a|];
      }
    }
  }

  /** Roots missing from the working directory are passed over: they leave the report as it was. */
  lemma {:induction false} RootsAbsentSuffix(cwd: seq<Entry>, roots: seq<string>, k: nat)
    requires k <= |roots|
    requires forall j :: k <= j < |roots| ==> Resolve(cwd, roots[j]).Absent?
    ensures RootsReport(cwd, roots) == RootsReport(cwd, roots[..k])
    decreases |roots|
  {
    if |roots| > k {
      var n := |roots| - 1;
      assert roots[..n][..k] == roots[..k];
      RootsAbsentSuffix(cwd, roots[..n], k);
    } else {
      assert roots[..k] == roots;
    }
  }

  /** The fixed code roots are pairwise distinct. */
  lemma CodeRootsDistinct()
    ensures forall x, y :: 0 <= x < y < |CodeRoots| ==> CodeRoots[x] != CodeRoots[y]
  {
  }
}
