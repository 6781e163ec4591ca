/**
 * The part of the filesystem the linter reads, as a finite ordered tree.
 * The order of a directory's `children` is the order `fs.readdirSync`
 * returns them in; a `Dir` is whatever `fs.statSync(..).isDirectory()`
 * accepts, every other entry is a `File`. A path is the list of its segments
 * below the working directory (`["docs", "guide", "x.md"]` is `./docs/guide/x.md`).
 */
module FileTree {

  datatype Entry = File(name: string) | Dir(name: string, children: seq<Entry>)

  type Path = seq<string>

  /** What `fs.existsSync` and a following `fs.readdirSync` find at a top-level name. */
  datatype Root = Absent | NotADirectory | Directory(children: seq<Entry>)

  /** The set of names in one directory listing. */
  function NamesOf(entries: seq<Entry>): (names: set<string>)
    ensures forall i :: 0 <= i < |entries| ==> entries[i].name in names
    ensures forall n :: n in names ==> exists i :: 0 <= i < |entries| && entries[i].name == n
  {
    set i | 0 <= i < |entries| :: entries[i].name
  }

  /**
   * A real directory tree: no two entries of one directory share a name.
   * Only the lemmas about repeated paths need it.
   */
  ghost predicate WellFormed(entries: seq<Entry>)
    decreases entries
  {
    && (forall i, j :: 0 <= i < j < |entries| ==> entries[i].name != entries[j].name)
    && (forall i :: 0 <= i < |entries| && entries[i].Dir? ==> WellFormed(entries[i].children))
  }

  /**
   * `rel` leads from the directory whose listing is `entries`, through
   * directories only, to an entry that is a directory exactly when `wantDir`.
   */
  ghost predicate Reaches(entries: seq<Entry>, rel: Path, wantDir: bool)
    decreases entries, 1
  {
    && |rel| > 0
    && exists i :: 0 <= i < |entries| && entries[i].name == rel[0] && ReachesVia(entries, i, rel, wantDir)
  }

  /** `Reaches`, taking the step through the entry at index `i`. */
  ghost predicate ReachesVia(entries: seq<Entry>, i: nat, rel: Path, wantDir: bool)
    requires i < |entries| && |rel| > 0
    decreases entries, 0
  {
    if |rel| == 1 then entries[i].Dir? == wantDir
    else entries[i].Dir? && Reaches(entries[i].children, rel[1..], wantDir)
  }

  /**
   * Looks a top-level name up in the working directory's listing; the first
   * entry of that name is taken.
   */
  function Resolve(cwd: seq<Entry>, name: string): (r: Root)
    ensures r.Absent? <==> name !in NamesOf(cwd)
    ensures r.Directory? ==> Dir(name, r.children) in cwd
    ensures r.NotADirectory? ==> File(name) in cwd
  {
    if |cwd| == 0 then Absent
    else if cwd[0].name == name then
      (if cwd[0].Dir? then Directory(cwd[0].children) else NotADirectory)
    else Resolve(cwd[1..], name)
  }

  /**
   * A path below a listing starts at its last entry or at one of the entries
   * before it: the decomposition the walks' specifications follow.
   */
  lemma ReachesSplit(entries: seq<Entry>, rel: Path, wantDir: bool)
    requires |entries| > 0
    ensures var n := |entries| - 1;
      Reaches(entries, rel, wantDir) <==>
        || Reaches(entries[..n], rel, wantDir)
        || (|rel| > 0 && entries[n].name == rel[0] && ReachesVia(entries, n, rel, wantDir))
  {
  }

  /** A directory found at a top-level name of a real tree is itself a real tree. */
  lemma ResolveWellFormed(cwd: seq<Entry>, name: string)
    requires WellFormed(cwd) && Resolve(cwd, name).Directory?
    ensures WellFormed(Resolve(cwd, name).children)
  {
  }
}
