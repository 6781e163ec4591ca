/**
 * The document check (`checkDocumentNaming`): an unbounded depth-first walk
 * of `docs/` that reports every `.md` file whose name breaks the document
 * rule, with a suggested new name.
 */
module DocumentCheck {
  import opened NamingRules
  import opened FileTree

  /** One entry of the `errors` array: the file's path and the suggested name. */
  datatype Violation = Violation(path: Path, suggestion: string)

  /** The outcome of the check: `docs` missing, walked, or not a directory (readdir throws). */
  datatype Report = Skipped | Checked(violations: seq<Violation>) | Failed(at: Path)

  const DocsRoot: string := "docs"

  /**
   * What `checkDir(dir)` pushes for the listing `files` of `dir`: the share of
   * each entry, in listing order.
   */
  function DocWalk(dir: Path, files: seq<Entry>): seq<Violation>
    decreases files, 0
  {
    if |files| == 0 then []
    else DocWalk(dir, files[..|files| - 1]) + DocEntry(dir, files[|files| - 1])
  }

  /**
   * The share of one entry of `dir`: a directory contributes what the walk
   * below it pushes, a reported `.md` file one violation, any other file nothing.
   */
  function DocEntry(dir: Path, file: Entry): seq<Violation>
    decreases file, 1
  {
    match file
    case Dir(name, children) => DocWalk(dir + [name], children)
    case File(name) =>
      if IsReportedDoc(name) then [Violation(dir + [name], StripHyphens(name))] else []
  }

  /** Every violation recorded below `dir` lies strictly below it, under one of its entries. */
  lemma {:induction false} DocWalkPaths(dir: Path, files: seq<Entry>)
    ensures forall v :: v in DocWalk(dir, files) ==>
      |v.path| > |dir| && v.path[..|dir|] == dir && v.path[|dir|] in NamesOf(files)
    decreases files, 0
  {
    if |files| > 0 {
      var n := |files| - 1;
      DocWalkPaths(dir, files[..n]);
      DocEntryPaths(dir, files[n]);
      assert NamesOf(files[..n]) <= NamesOf(files) by {
        forall x | x in NamesOf(files[..n]) ensures x in NamesOf(files) {
          var i :| 0 <= i < n && files[..n][i].name == x;
          assert files[i].name == x;
        }
      }
      forall v | v in DocEntry(dir, files[n])
        ensures v.path[..|dir|] == dir && v.path[|dir|] == files[n].name
      {
        assert v.path[..|dir|] == v.path[..|dir| + 1][..|dir|];
        assert v.path[|dir|] == v.path[..|dir| + 1][|dir|];
      }
    }
  }

  /** Every violation in the share of `file` lies below `dir + [file.name]` or is that path. */
  lemma {:induction false} DocEntryPaths(dir: Path, file: Entry)
    ensures forall v :: v in DocEntry(dir, file) ==>
      |v.path| > |dir| && v.path[..|dir| + 1] == dir + [file.name]
    decreases file, 1
  {
    if file.Dir? {
      DocWalkPaths(dir + [file.name], file.children);
    }
  }

  /**
   * A violation is recorded for `dir + rel` exactly when `rel` leads through
   * directories to a file whose name ends with `.md` and breaks the document
   * rule, and its suggestion is that name with the hyphens removed. So no
   * directory and no other file is ever reported, at any depth.
   */
  lemma {:induction false} DocWalkMembers(dir: Path, files: seq<Entry>, rel: Path, s: string)
    ensures Violation(dir + rel, s) in DocWalk(dir, files) <==>
      && Reaches(files, rel, false)
      && IsReportedDoc(rel[|rel| - 1])
      && s == StripHyphens(rel[|rel| - 1])
    decreases files, 0
  {
    if |files| == 0 {
      assert !Reaches(files, rel, false);
    } else {
      var n := |files| - 1;
      ReachesSplit(files, rel, false);
      DocWalkMembers(dir, files[..n], rel, s);
      DocEntryMembers(dir, files[n], rel, s);
      if |rel| > 0 && files[n].name == rel[0] {
        assert ReachesVia(files, n, rel, false) <==>
          if |rel| == 1 then files[n].File?
          else files[n].Dir? && Reaches(files[n].children, rel[1..], false);
      }
    }
  }

  /** `DocWalkMembers` for the share of a single entry. */
  lemma {:induction false} DocEntryMembers(dir: Path, file: Entry, rel: Path, s: string)
    ensures Violation(dir + rel, s) in DocEntry(dir, file) <==>
      && |rel| > 0 && file.name == rel[0]
      && (if |rel| == 1 then file.File? else file.Dir? && Reaches(file.children, rel[1..], false))
      && IsReportedDoc(rel[|rel| - 1])
      && s == StripHyphens(rel[|rel| - 1])
    decreases file, 1
  {
    var v := Violation(dir + rel, s);
    if |rel| == 0 || file.name != rel[0] {
      DocEntryPaths(dir, file);
      if |rel| > 0 {
        assert (dir + rel)[..|dir| + 1][|dir|] == rel[0];
      }
    } else {
      match file {
        case File(name) =>
          if |rel| == 1 {
            assert dir + rel == dir + [name];
          } else {
            assert |(dir + rel)| != |dir + [name]|;
          }
        case Dir(name, children) =>
          if |rel| > 1 {
            assert dir + rel == (dir + [name]) + rel[1..];
            DocWalkMembers(dir + [name], children, rel[1..], s);
          } else {
            DocWalkPaths(dir + [name], children);
          }
      }
    }
  }

  /** No two violations of the list share a path. */
  ghost predicate DistinctPaths(vs: seq<Violation>) {
    forall i, j :: 0 <= i < j < |vs| ==> vs[i].path != vs[j].path
  }

  /** In a real tree every entry is visited once, so no path is reported twice. */
  lemma {:induction false} DocWalkDistinct(dir: Path, files: seq<Entry>)
    requires WellFormed(files)
    ensures DistinctPaths(DocWalk(dir, files))
    decreases files
  {
    if |files| > 0 {
      var n := |files| - 1;
      var front, tail := DocWalk(dir, files[..n]), DocEntry(dir, files[n]);
      assert WellFormed(files[..n]);
      DocWalkDistinct(dir, files[..n]);
      DocWalkPaths(dir, files[..n]);
      DocEntryPaths(dir, files[n]);
      if files[n].Dir? {
        DocWalkDistinct(dir + [files[n].name], files[n].children);
      }
      assert DistinctPaths(tail);
      forall i, j | 0 <= i < |front| <= j < |front + tail|
        ensures (front + tail)[i].path != (front + tail)[j].path
      {
        var a, b := front[i], tail[j - |front|];
        assert b in tail && a in front;
        var k :| 0 <= k < n && files[..n][k].name == a.path[|dir|];
        assert files[k].name != files[n].name;
        assert b.path[|dir|] == b.path[..|dir| + 1][|dir|];
      }
    }
  }

  /**
   * `checkDir(dir)`: walks the listing `files` of `dir` in order, descending
   * into every directory and appending a violation for every reported `.md`
   * file to `errors`.
   */
  method CheckDir(dir: Path, files: seq<Entry>, errors: seq<Violation>) returns (errors': seq<Violation>)
    ensures errors' == errors + DocWalk(dir, files)
    decreases files
  {
    errors' := errors;
    var i := 0;
    while i < |files|
      invariant 0 <= i <= |files|
      invariant errors' == errors + DocWalk(dir, files[..i])
    {
      var file := files[i];
      var filePath := dir + [file.name];
      assert files[..i + 1][..i] == files[..i];
      assert DocWalk(dir, files[..i + 1]) == DocWalk(dir, files[..i]) + DocEntry(dir, file);
      match file {
        case Dir(_, children) =>
          errors' := CheckDir(filePath, children, errors');
        case File(name) =>
          if EndsWithMd(name) && IsDocViolation(name) {
            errors' := errors' + [Violation(filePath, StripHyphens(name))];
          }
      }
      i := i + 1;
    }
    assert files[..i] == files;
  }

  /** The document check's result for the working directory `cwd`. */
  function DocumentReport(cwd: seq<Entry>): Report {
    match Resolve(cwd, DocsRoot)
    case Absent => Skipped
    case NotADirectory => Failed([DocsRoot])
    case Directory(children) => Checked(DocWalk([DocsRoot], children))
  }

  /**
   * `checkDocumentNaming`: skips a missing `docs`, fails where `readdirSync`
   * would throw, and otherwise walks `docs` from an empty error list.
   */
  method CheckDocumentNaming(cwd: seq<Entry>) returns (r: Report)
    ensures r == DocumentReport(cwd)
  {
    match Resolve(cwd, DocsRoot) {
      case Absent =>
        return Skipped;
      case NotADirectory =>
        return Failed([DocsRoot]);
      case Directory(children) =>
        var errors := CheckDir([DocsRoot], children, []);
        return Checked(errors);
    }
  }
}
