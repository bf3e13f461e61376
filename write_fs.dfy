/** An abstract, in-memory destination file system: a set of directories and a
    map from file path to contents. It stands for the synchronised `writefs`
    the renderer writes through; its operations fail the way the renderer
    expects (`Exist` from mkdir, `NotExist` from remove), and a fixed set of
    `faulty` paths makes any operation on them fail with some other error. */
module WriteFs {
  import opened Wrappers
  import opened GoStrings

  type Path = string
  type Bytes = seq<bv8>

  datatype Tree = Tree(dirs: set<Path>, files: map<Path, Bytes>)

  /** The root "." always exists and no path is both a directory and a file. */
  predicate WellFormed(t: Tree) {
    "." in t.dirs && t.dirs !! t.files.Keys
  }

  /** The tree after an operation, and the error the operation returned. */
  datatype Step = Step(tree: Tree, err: Option<Error>)

  /** writefs.MkDir: creates `p` when its parent directory exists. */
  function MkDirStep(t: Tree, faulty: set<Path>, p: Path): Step {
    if p in faulty then Step(t, Some(Fault(p)))
    else if p in t.dirs then Step(t, Some(Exist(p)))
    else if p in t.files then Step(t, Some(NotDirectory(p)))
    else if Dir(p) !in t.dirs then Step(t, Some(NotExist(Dir(p))))
    else Step(t.(dirs := t.dirs + {p}), None)
  }

  /** writefs.Remove: deletes the file at `p`. */
  function RemoveStep(t: Tree, faulty: set<Path>, p: Path): Step {
    if p in faulty then Step(t, Some(Fault(p)))
    else if p in t.dirs then Step(t, Some(IsDirectory(p)))
    else if p in t.files then Step(t.(files := t.files - {p}), None)
    else Step(t, Some(NotExist(p)))
  }

  /** writefs.OpenFile with O_CREATE|O_WRONLY|O_TRUNC: the file at `p` exists
      and is empty afterwards, whatever it held before. */
  function CreateStep(t: Tree, faulty: set<Path>, p: Path): Step {
    if p in faulty then Step(t, Some(Fault(p)))
    else if p in t.dirs then Step(t, Some(IsDirectory(p)))
    else if Dir(p) !in t.dirs then Step(t, Some(NotExist(Dir(p))))
    else Step(t.(files := t.files[p := []]), None)
  }

  /** Writing `data` to the open file at `p` appends it. */
  function AppendStep(t: Tree, p: Path, data: Bytes): Tree
    requires p in t.files
  {
    t.(files := t.files[p := t.files[p] + data])
  }

  /** Every operation keeps the tree well formed. */
  lemma StepsKeepWellFormed(t: Tree, faulty: set<Path>, p: Path, data: Bytes)
    requires WellFormed(t)
    ensures WellFormed(MkDirStep(t, faulty, p).tree)
    ensures WellFormed(RemoveStep(t, faulty, p).tree)
    ensures WellFormed(CreateStep(t, faulty, p).tree)
    ensures p in t.files ==> WellFormed(AppendStep(t, p, data))
  {
  }

  /** The destination file system as an object whose state the renderer
      changes in place. */
  class Fs {
    var dirs: set<Path>
    var files: map<Path, Bytes>
    /** Paths on which every operation fails with an error other than
        `Exist` or `NotExist`. */
    const faulty: set<Path>

    function State(): Tree
      reads this
    {
      Tree(dirs, files)
    }

    constructor (t: Tree, faulty: set<Path>)
      ensures State() == t && this.faulty == faulty
    {
      dirs, files := t.dirs, t.files;
      this.faulty := faulty;
    }

    method MkDir(p: Path) returns (err: Option<Error>)
      modifies this
      ensures Step(State(), err) == MkDirStep(old(State()), faulty, p)
    {
      var s := MkDirStep(State(), faulty, p);
      dirs, files, err := s.tree.dirs, s.tree.files, s.err;
    }

    method Remove(p: Path) returns (err: Option<Error>)
      modifies this
      ensures Step(State(), err) == RemoveStep(old(State()), faulty, p)
    {
      var s := RemoveStep(State(), faulty, p);
      dirs, files, err := s.tree.dirs, s.tree.files, s.err;
    }

    method Create(p: Path) returns (err: Option<Error>)
      modifies this
      ensures Step(State(), err) == CreateStep(old(State()), faulty, p)
    {
      var s := CreateStep(State(), faulty, p);
      dirs, files, err := s.tree.dirs, s.tree.files, s.err;
    }

    method Append(p: Path, data: Bytes)
      requires p in files
      modifies this
      ensures State() == AppendStep(old(State()), p, data)
    {
      files := files[p := files[p] + data];
    }
  }
}
