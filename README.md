# vibe-lint naming checks, modelled in Dafny

`scripts/vibe-lint.js` is the linter of the vibe-standards project. It runs
two naming checks over the working directory and ends the process with
status 1 when either found a violation, 0 otherwise:

- the **document check** walks `docs/` to any depth and reports every `.md`
  file whose name is made only of `[a-zA-Z0-9\-_.]` and has no CJK
  character (the project wants Chinese document names), with a "suggestion"
  that is the name with its hyphens deleted;
- the **code-directory check** walks each of `src`, `components`, `pages`,
  `lib` and `utils` that exists, and reports every directory whose name is
  not kebab-case (`[a-z0-9\-]+`) or has a CJK character. Its recursive
  `checkDir(dir, depth)` returns at once when `depth > 4`.

The project models:

- `naming.dfy` (`NamingRules`): the regular-expression tests as predicates
  over characters, the two rules, and the hyphen-stripping suggestion.
- `tree.dfy` (`FileTree`): the filesystem as an ordered tree of `File` and
  `Dir` entries (listing order = `readdirSync` order); a path is the list of
  its segments below the working directory; `Resolve` is what
  `existsSync` + `readdirSync` find at a top-level name.
- `doc_walk.dfy` (`DocumentCheck`): the recursive `checkDir(dir)` of the
  document check as an imperative method appending to the `errors` list,
  proved equal to the specification function `DocWalk`, and
  `checkDocumentNaming`.
- `code_walk.dfy` (`CodeDirCheck`): `checkDir(dir, depth)` of the code check
  the same way (`CodeWalk`), the loop over the five roots, and
  `checkCodeDirNaming`.
- `lint.dfy` (`Lint`): `main` with its `hasError` flag, the exit status, and
  concrete runs.

The two walks are specified by what they report, for every path: a path is
reported exactly when it leads through directories to an entry of the right
kind whose name breaks the rule (and, for code directories, lies 1 to 5
levels below its root). On a real tree (no two entries of one directory share
a name) no path is reported twice, and the code check lists its roots'
findings in the order of the roots.

**Depth of the code check.** The depth limit is described as "4 levels", but
the code calls `checkDir(root)` with depth 0, judges the entries of a
directory visited at depth `d` at level `d + 1`, and stops only when
`depth > 4`. So directories are judged down to level 5 below the root: in
`src/a/b/c/d/BadName`, `BadName` is reported, and a directory below it is
never looked at. The model follows the code (`MaxDepth = 4`, proved in
`Lint.DepthBoundary`).

**The suggestion never conforms.** A reported name is made only of
`[a-zA-Z0-9\-_.]` and ends in `.md`; deleting its hyphens keeps both, so the
suggested name would be reported again (`NamingRules.SuggestionStillReported`).
For a name without hyphens the suggestion is the name itself
(`Lint.ReadmeIsReported`).

**A root that is not a directory.** When `docs` or a code root exists but is
a file, `readdirSync` throws and the script ends with an uncaught exception.
The model returns `Failed(root)` from the check and `Aborted(root)` from the
run; nothing after it happens.

## Model

| member | source | states |
|---|---|---|
| NamingRules.IsDocViolation | scripts/vibe-lint.js:47-50 | a document name breaks the rule exactly when it is non-empty and every character is in `[a-zA-Z0-9\-_.]`; the CJK conjunct can never change the answer |
| NamingRules.IsCodeDirViolation | scripts/vibe-lint.js:97-100 | a directory name breaks the rule exactly when it is empty or has a character outside `[a-z0-9\-]`; the CJK disjunct adds nothing; an upper-case letter, `_` or `.` always breaks it |
| NamingRules.StripHyphens | scripts/vibe-lint.js:53 | the suggestion has no hyphen, is no longer than the name, and keeps every other character with its multiplicity |
| NamingRules.StripHyphensConcat | scripts/vibe-lint.js:53 | deleting hyphens distributes over concatenation |
| NamingRules.StripHyphensIdentity | scripts/vibe-lint.js:53 | the suggestion equals the name exactly when the name has no hyphen |
| NamingRules.StripHyphensIdempotent | scripts/vibe-lint.js:53 | suggesting twice gives the same name as suggesting once |
| NamingRules.StripHyphensKeepsDocChars | scripts/vibe-lint.js:48-53 | deleting hyphens from a name made of `[a-zA-Z0-9\-_.]` leaves a name made of those characters |
| NamingRules.SuggestionStillReported | scripts/vibe-lint.js:45-53 | the suggestion for a reported document is itself a reported document name |
| FileTree.Resolve | scripts/vibe-lint.js:84-90 | a top-level name is absent exactly when no entry has it; a found directory or file is an entry of the working directory |
| DocumentCheck.DocWalkPaths | scripts/vibe-lint.js:36-52 | every reported path lies strictly below `dir`, under one of its entries |
| DocumentCheck.DocEntryPaths | scripts/vibe-lint.js:39-52 | every path reported for one entry starts with `dir` and that entry's name |
| DocumentCheck.DocWalkMembers | scripts/vibe-lint.js:36-57 | `(dir + rel, s)` is reported exactly when `rel` leads through directories to a file that ends in `.md` and breaks the document rule, and `s` is that name without hyphens |
| DocumentCheck.DocEntryMembers | scripts/vibe-lint.js:39-56 | the same characterisation for the share of one entry: a directory recurses, a file is judged itself |
| DocumentCheck.DocWalkDistinct | scripts/vibe-lint.js:36-57 | on a real tree no path is reported twice |
| DocumentCheck.CheckDir | scripts/vibe-lint.js:36-58 | the recursive walk appends to `errors` exactly the violations `DocWalk` specifies, in listing order |
| DocumentCheck.CheckDocumentNaming | scripts/vibe-lint.js:24-60 | a missing `docs` is skipped, a `docs` that is a file fails, otherwise the walk of `docs` from an empty list |
| CodeDirCheck.CodeWalkPaths | scripts/vibe-lint.js:87-107 | every path recorded below `dir` lies under one of its entries and at most `MaxDepth + 1 - depth` levels below it |
| CodeDirCheck.CodeEntryPaths | scripts/vibe-lint.js:95-104 | every path recorded for one entry starts with `dir` and that entry's name, within the depth bound |
| CodeDirCheck.CodeWalkMembers | scripts/vibe-lint.js:87-107 | `dir + rel` is recorded exactly when `rel` leads through directories to a directory whose name breaks the rule, 1 to `MaxDepth + 1 - depth` levels below `dir`; a violating directory does not stop the descent |
| CodeDirCheck.CodeEntryMembers | scripts/vibe-lint.js:95-104 | the same characterisation for the share of one entry: files contribute nothing, a directory its own finding and those below it |
| CodeDirCheck.CodeWalkDistinct | scripts/vibe-lint.js:87-107 | on a real tree no directory is recorded twice |
| CodeDirCheck.CodeEntryDistinct | scripts/vibe-lint.js:95-104 | on a real tree the share of one directory has no repeated path |
| CodeDirCheck.CheckDir | scripts/vibe-lint.js:87-107 | returns at once when `depth > 4`, otherwise appends to `errors` exactly what `CodeWalk` specifies, in listing order |
| CodeDirCheck.CheckCodeDirNaming | scripts/vibe-lint.js:77-110 | visits the roots in order from an empty list: missing roots are passed over, the first root that is a file stops the check |
| CodeDirCheck.RootsFailedSticks | scripts/vibe-lint.js:83-90 | once a root has stopped the check, later roots change nothing |
| CodeDirCheck.RootsFailed | scripts/vibe-lint.js:83-90 | the check stops exactly when some root exists but is not a directory |
| CodeDirCheck.RootsFailedAt | scripts/vibe-lint.js:83-90 | a stopped check names the first root that is not a directory |
| CodeDirCheck.RootWalkMembers | scripts/vibe-lint.js:84-109 | a path is recorded by the walk of one root exactly when it starts with the root and leads to a violating directory 1 to 5 levels below it |
| CodeDirCheck.RootsMembers | scripts/vibe-lint.js:80-110 | a path is reported exactly when its head is a root present as a directory and the rest leads to a violating directory 1 to 5 levels below it |
| CodeDirCheck.RootsHeads | scripts/vibe-lint.js:83-109 | every reported path starts with one of the roots |
| CodeDirCheck.LastRootHeads | scripts/vibe-lint.js:83-109 | visiting one more root keeps the earlier findings as a prefix and appends only paths under that root |
| CodeDirCheck.RootsInOrder | scripts/vibe-lint.js:80-110 | with distinct roots, every finding under an earlier root precedes every finding under a later one |
| CodeDirCheck.RootsDistinct | scripts/vibe-lint.js:80-110 | with distinct roots over a real tree, no path is reported twice |
| CodeDirCheck.RootsAbsentSuffix | scripts/vibe-lint.js:85 | roots missing from the working directory leave the report unchanged |
| CodeDirCheck.CodeRootsDistinct | scripts/vibe-lint.js:80 | the five code roots are pairwise distinct |
| Lint.Run | scripts/vibe-lint.js:124-137 | `main` runs the document check, then the code check, aborting where either fails, and exits with 1 exactly when some check recorded a violation |
| Lint.DocumentReportNonEmpty | scripts/vibe-lint.js:60-63 | the document check records something exactly when some reported `.md` file lies under `docs` |
| Lint.CodeReportNonEmpty | scripts/vibe-lint.js:109-113 | the code check records something exactly when some violating directory lies 1 to 5 levels below a present code root |
| Lint.ExitStatus | scripts/vibe-lint.js:131-136 | a run that is not aborted exits with 0 or 1, and with 1 exactly when a reported document or a violating code directory exists |
| Lint.AbortedWhen | scripts/vibe-lint.js:124-128 | the run aborts exactly when `docs` or a code root exists but is not a directory |
| Lint.AbortedAt | scripts/vibe-lint.js:127-128 | an aborted run names `docs` when it is not a directory, and otherwise the first code root that is not one |
| Lint.NoPathTwice | scripts/vibe-lint.js:36-109 | on a real tree neither check reports a path twice |
| Lint.SingleDir | scripts/vibe-lint.js:95-104 | a directory listed alone contributes its own finding, then everything below it |
| Lint.OnlySrc | scripts/vibe-lint.js:80-85 | with only `src` present, the code check is the walk of `src` |
| Lint.OnlyDocs | scripts/vibe-lint.js:80-85 | with only `docs` present, the code check records nothing |
| Lint.HyphenFreeEntry | scripts/vibe-lint.js:50-54 | a reported document without hyphens is suggested under its own name |
| Lint.SingleDocReport | scripts/vibe-lint.js:36-57 | the document check over `docs/<name>` alone is the share of that one file |
| Lint.ReadmeRun | scripts/vibe-lint.js:45-54 | `docs/readme.md` alone is reported with suggestion `readme.md` and the run exits with 1 |
| Lint.ReadmeIsReported | scripts/vibe-lint.js:45-54 | the same for the literal name `readme.md` |
| Lint.UpperCaseDirIsReported | scripts/vibe-lint.js:95-102 | `src/MyComponent` is reported and the run exits with 1 |
| Lint.PassThrough | scripts/vibe-lint.js:100-104 | a conforming directory with one entry contributes exactly what is found below it |
| Lint.DepthBoundaryLower | scripts/vibe-lint.js:88 | the walk of `src/a/b` at depth 2 records only `src/a/b/c/d/BadName` |
| Lint.DepthBoundaryWalk | scripts/vibe-lint.js:88 | the walk of `src` records only `src/a/b/c/d/BadName` |
| Lint.DepthBoundary | scripts/vibe-lint.js:87-88 | `BadName` five levels below `src` is reported, `Deeper` six levels below is not looked at, and the run exits with 1 |
| Lint.EmptyTreePasses | scripts/vibe-lint.js:28-31 | with no `docs` and no code root the run exits with 0 |

## Left out

- Console output (the headings, ANSI colours, the printed lists and counts): the model returns the lists instead of printing them.
- `process.cwd()`, `path.join` and `filePath.replace(process.cwd(), '.')`: paths are lists of segments relative to the working directory, so the `./` prefix and separators are not modelled.
- `process.exit`: the run returns an `Outcome`; the uncaught exception of `readdirSync` on a root that is a file becomes `Aborted`, and its exit status is not modelled.
- Filesystem errors other than a root that is a file (permissions, entries vanishing during the walk, broken symbolic links that make `statSync` throw, symbolic-link cycles): the tree is a finite snapshot, and a `Dir` is whatever `statSync(..).isDirectory()` accepts.
- JavaScript strings are UTF-16; the model tests patterns per Dafny character. All character classes involved lie in the Basic Multilingual Plane, so a name outside it is the only place the two could differ.
- DocumentCheck.DocWalkDistinct, CodeDirCheck.CodeWalkDistinct, CodeDirCheck.RootsDistinct, Lint.NoPathTwice: require a tree with distinct names per directory (`WellFormed`); the model's trees may repeat names, which a real directory cannot.
