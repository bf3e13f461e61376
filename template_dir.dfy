/** The rendering pipeline of templatedir.go: discovery of template files in
    a walk of the source tree, recursive creation of destination directories,
    rendering of one file into the destination, and the sequential skeleton of
    `RenderTo` with its result rule. Template parsing and execution are an
    opaque `Engine`; the destination is the abstract file system of `WriteFs`. */
module TemplateDir {
  import opened Wrappers
  import opened GoStrings
  import opened WriteFs
  import SyncErrs

  /** The marker suffix of a renderable file. */
  const TemplateExt := ".template"

  // ---------------------------------------------------------------------
  // Discovery (walkDir)

  /** One entry visited by fs.WalkDir: its slash-separated path and whether it
      is a directory. */
  datatype Entry = Entry(path: Path, isDir: bool)

  /** The walk callback's test: a non-directory whose path ends in the marker. */
  predicate IsTemplate(e: Entry) {
    !e.isDir && HasSuffix(e.path, TemplateExt)
  }

  /** The paths the walk callback sends, in walk order. */
  function Discovered(walk: seq<Entry>): seq<Path> {
    if walk == [] then []
    else
      var last := walk[|walk| - 1];
      Discovered(walk[..|walk| - 1]) + if IsTemplate(last) then [last.path] else []
  }

  /** Where the entry `walk[i]` lands in the discovered sequence. */
  function Position(walk: seq<Entry>, i: nat): nat
    requires i <= |walk|
  {
    |Discovered(walk[..i])|
  }

  /** walkDir, run to completion: the callback sends every template path and
      always returns nil, so no entry stops the walk; the walk's own error is
      reported once, after the last path. */
  method WalkDir(walk: seq<Entry>, walkErr: Option<Error>) returns (paths: seq<Path>, err: Option<Error>)
    ensures paths == Discovered(walk)
    ensures err == walkErr
  {
    paths := [];
    for i := 0 to |walk|
      invariant paths == Discovered(walk[..i])
    {
      assert walk[..i + 1][..i] == walk[..i];
      if IsTemplate(walk[i]) {
        paths := paths + [walk[i].path];
      }
    }
    assert walk[..|walk|] == walk;
    err := walkErr;
  }

  /** Discovery yields exactly the paths of the walked entries that are not
      directories and end in the marker. */
  lemma {:induction false} DiscoveredExactly(walk: seq<Entry>, p: Path)
    ensures p in Discovered(walk) <==> exists i :: 0 <= i < |walk| && IsTemplate(walk[i]) && walk[i].path == p
  {
    if walk != [] {
      var init := walk[..|walk| - 1];
      DiscoveredExactly(init, p);
      if p in Discovered(init) {
        var i :| 0 <= i < |init| && IsTemplate(init[i]) && init[i].path == p;
        assert walk[i] == init[i];
      }
      if exists i :: 0 <= i < |walk| && IsTemplate(walk[i]) && walk[i].path == p {
        var i :| 0 <= i < |walk| && IsTemplate(walk[i]) && walk[i].path == p;
        if i < |walk| - 1 {
          assert init[i] == walk[i];
        }
      }
    }
  }

  /** Discovering a longer walk only appends to what a shorter one found. */
  lemma {:induction false} DiscoveredGrows(walk: seq<Entry>, i: nat, j: nat)
    requires i <= j <= |walk|
    ensures Discovered(walk[..i]) <= Discovered(walk[..j])
    decreases j
  {
    if i < j {
      DiscoveredGrows(walk, i, j - 1);
      assert walk[..j][..j - 1] == walk[..j - 1];
    }
  }

  /** Walking one more entry appends its path when it is a template. */
  lemma DiscoveredSnoc(walk: seq<Entry>, e: Entry)
    ensures Discovered(walk + [e]) == Discovered(walk) + if IsTemplate(e) then [e.path] else []
  {
    assert (walk + [e])[..|walk|] == walk;
  }

  /** A template entry sits at its position in the discovered sequence. */
  lemma DiscoveredAt(walk: seq<Entry>, i: nat)
    requires i < |walk| && IsTemplate(walk[i])
    ensures Position(walk, i) < Position(walk, i + 1) <= |Discovered(walk)|
    ensures Discovered(walk)[Position(walk, i)] == walk[i].path
  {
    assert walk[..i + 1] == walk[..i] + [walk[i]];
    DiscoveredSnoc(walk[..i], walk[i]);
    DiscoveredGrows(walk, i + 1, |walk|);
    assert walk[..|walk|] == walk;
  }

  /** Each template entry appears in the discovered sequence at its position,
      and template entries keep their walk order there. */
  lemma DiscoveredInWalkOrder(walk: seq<Entry>, i: nat, j: nat)
    requires i < j < |walk|
    requires IsTemplate(walk[i]) && IsTemplate(walk[j])
    ensures Position(walk, i) < Position(walk, j) < |Discovered(walk)|
    ensures Discovered(walk)[Position(walk, i)] == walk[i].path
    ensures Discovered(walk)[Position(walk, j)] == walk[j].path
  {
    DiscoveredAt(walk, i);
    DiscoveredAt(walk, j);
    DiscoveredGrows(walk, i + 1, j);
  }

  /** A walk shaped like the listing the walk test expects: the three
      template paths it names, in lexical order, each after the directories
      above it. The fixture tree itself is not part of this model. */
  const FixtureWalk: seq<Entry> := [
    Entry(".", true), Entry("dir1", true), Entry("dir1/dir2", true),
    Entry("dir1/dir2/file3.txt.template", false), Entry("dir1/dir3", true),
    Entry("dir1/dir3/file4.template", false), Entry("dir1/vars", true),
    Entry("dir1/vars/test.template", false)]

  /** A walk of the fixture's shape: three directories, a template, a
      directory, a template, a directory, a template. */
  lemma DiscoveredFixtureShape(d0: Entry, d1: Entry, d2: Entry, t3: Entry,
                               d4: Entry, t5: Entry, d6: Entry, t7: Entry)
    requires d0.isDir && d1.isDir && d2.isDir && d4.isDir && d6.isDir
    requires IsTemplate(t3) && IsTemplate(t5) && IsTemplate(t7)
    ensures Discovered([d0, d1, d2, t3, d4, t5, d6, t7]) == [t3.path, t5.path, t7.path]
  {
    var w1 := [] + [d0];
    var w2 := w1 + [d1];
    var w3 := w2 + [d2];
    var w4 := w3 + [t3];
    var w5 := w4 + [d4];
    var w6 := w5 + [t5];
    var w7 := w6 + [d6];
    DiscoveredSnoc([], d0);
    DiscoveredSnoc(w1, d1);
    DiscoveredSnoc(w2, d2);
    DiscoveredSnoc(w3, t3);
    DiscoveredSnoc(w4, d4);
    DiscoveredSnoc(w5, t5);
    DiscoveredSnoc(w6, d6);
    DiscoveredSnoc(w7, t7);
    assert w7 + [t7] == [d0, d1, d2, t3, d4, t5, d6, t7];
  }

  /** That walk yields the three paths the test expects, in order. */
  lemma FixtureDiscovery()
    ensures Discovered(FixtureWalk)
      == ["dir1/dir2/file3.txt.template", "dir1/dir3/file4.template", "dir1/vars/test.template"]
  {
    var w := FixtureWalk;
    assert IsTemplate(w[3]) && IsTemplate(w[5]) && IsTemplate(w[7]);
    DiscoveredFixtureShape(w[0], w[1], w[2], w[3], w[4], w[5], w[6], w[7]);
    assert w == [w[0], w[1], w[2], w[3], w[4], w[5], w[6], w[7]];
  }

  // ---------------------------------------------------------------------
  // Directory creation (mkDirRec)

  /** pathAccum after appending one more segment. */
  function Extend(acc: Path, seg: string): Path {
    if acc != "" then acc + "/" + seg else seg
  }

  /** The paths mkDirRec tries, in order, continuing from `acc`. */
  function Prefixes(acc: Path, segs: seq<string>): (ps: seq<Path>)
    ensures |ps| == |segs|
    decreases |segs|
  {
    if segs == [] then []
    else
      var a := Extend(acc, segs[0]);
      [a] + Prefixes(a, segs[1..])
  }

  /** The paths mkDirRec(dir) tries: every '/'-joined prefix of the segments of
      `dir`, shortest first. (strings.Split never returns an empty slice, so
      the fallback to ["."] for an empty split never applies.) */
  function DirPrefixes(dir: Path): seq<Path> {
    Prefixes("", Split(dir, '/'))
  }

  /** Trying to create each path of `ps` in turn: "already exists" counts as
      success and the first other error stops the loop. */
  function MkDirAll(t: Tree, faulty: set<Path>, ps: seq<Path>): Step
    decreases |ps|
  {
    if ps == [] then Step(t, None)
    else
      var s := MkDirStep(t, faulty, ps[0]);
      if s.err.Some? && !s.err.value.Exist? then s
      else MkDirAll(s.tree, faulty, ps[1..])
  }

  function Elems(ps: seq<Path>): set<Path> {
    set p | p in ps
  }

  /** One mkdir that succeeds or finds the path already there leaves `p` a
      directory; one that fails otherwise changes nothing. */
  lemma MkDirStepOutcome(t: Tree, faulty: set<Path>, p: Path)
    ensures var s := MkDirStep(t, faulty, p);
      && s.tree.files == t.files
      && (s.err.None? || s.err.value.Exist? ==> s.tree.dirs == t.dirs + {p} && p !in faulty)
      && (s.err.Some? ==> s.tree == t)
  {
  }

  /** mkDirRec never touches a file. */
  lemma {:induction false} MkDirAllKeepsFiles(t: Tree, faulty: set<Path>, ps: seq<Path>)
    ensures MkDirAll(t, faulty, ps).tree.files == t.files
    decreases |ps|
  {
    if ps != [] {
      MkDirStepOutcome(t, faulty, ps[0]);
      MkDirAllKeepsFiles(MkDirStep(t, faulty, ps[0]).tree, faulty, ps[1..]);
    }
  }

  /** When mkDirRec succeeds, every path it tried is a directory, none was
      faulty, and no other directory appeared. */
  lemma {:induction false} MkDirAllSuccess(t: Tree, faulty: set<Path>, ps: seq<Path>)
    requires MkDirAll(t, faulty, ps).err.None?
    ensures MkDirAll(t, faulty, ps).tree.dirs == t.dirs + Elems(ps)
    ensures Elems(ps) !! faulty
    decreases |ps|
  {
    if ps != [] {
      var s := MkDirStep(t, faulty, ps[0]);
      MkDirStepOutcome(t, faulty, ps[0]);
      MkDirAllSuccess(s.tree, faulty, ps[1..]);
      assert Elems(ps) == {ps[0]} + Elems(ps[1..]);
    }
  }

  /** `r` is what mkDirRec leaves after failing at the k-th path of `ps`:
      exactly the shorter paths were made (or were already there), and the
      error is the one the k-th mkdir reports. */
  predicate FailedAt(t: Tree, faulty: set<Path>, ps: seq<Path>, r: Step, k: int) {
    && 0 <= k < |ps|
    && r.tree.dirs == t.dirs + Elems(ps[..k])
    && r.err == MkDirStep(r.tree, faulty, ps[k]).err
  }

  /** When mkDirRec fails, the error is not "already exists" and it stopped at
      some path, leaving the longer ones untried. */
  lemma {:induction false} MkDirAllFailure(t: Tree, faulty: set<Path>, ps: seq<Path>)
    requires MkDirAll(t, faulty, ps).err.Some?
    ensures !MkDirAll(t, faulty, ps).err.value.Exist?
    ensures exists k :: FailedAt(t, faulty, ps, MkDirAll(t, faulty, ps), k)
    decreases |ps|
  {
    var s := MkDirStep(t, faulty, ps[0]);
    MkDirStepOutcome(t, faulty, ps[0]);
    if s.err.Some? && !s.err.value.Exist? {
      assert MkDirAll(t, faulty, ps) == s;
      assert Elems(ps[..0]) == {};
      assert FailedAt(t, faulty, ps, s, 0);
    } else {
      var r := MkDirAll(s.tree, faulty, ps[1..]);
      assert MkDirAll(t, faulty, ps) == r;
      MkDirAllFailure(s.tree, faulty, ps[1..]);
      var k :| FailedAt(s.tree, faulty, ps[1..], r, k);
      assert ps[..k + 1] == [ps[0]] + ps[1..][..k];
      assert Elems(ps[..k + 1]) == {ps[0]} + Elems(ps[1..][..k]);
      assert ps[k + 1] == ps[1..][k];
      assert FailedAt(t, faulty, ps, r, k + 1);
    }
  }

  /** Because the prefixes are tried shortest first, each one's parent exists
      when it is made: with no fault and no file on the way, creating the
      prefixes succeeds. */
  lemma {:induction false} MkDirAllSucceeds(t: Tree, faulty: set<Path>, acc: Path, segs: seq<string>)
    requires WellFormed(t)
    requires acc == "" || acc in t.dirs
    requires forall i :: 0 <= i < |segs| ==> '/' !in segs[i]
    requires forall p :: p in Prefixes(acc, segs) ==> p !in faulty && p !in t.files
    ensures MkDirAll(t, faulty, Prefixes(acc, segs)).err.None?
    decreases |segs|
  {
    if segs != [] {
      var a := Extend(acc, segs[0]);
      var ps := Prefixes(acc, segs);
      assert ps[0] == a && ps[1..] == Prefixes(a, segs[1..]);
      if acc != "" {
        DirOfChild(acc, segs[0]);
      } else {
        DirOfName(segs[0]);
      }
      var s := MkDirStep(t, faulty, a);
      assert a in s.tree.dirs && s.tree.files == t.files && WellFormed(s.tree);
      MkDirAllSucceeds(s.tree, faulty, a, segs[1..]);
    }
  }

  /** mkDirRec(dir) succeeds on a well-formed tree when none of the prefixes of
      `dir` is faulty or a file, and every prefix is then a directory. */
  lemma MkDirRecSucceeds(t: Tree, faulty: set<Path>, dir: Path)
    requires WellFormed(t)
    requires forall p :: p in DirPrefixes(dir) ==> p !in faulty && p !in t.files
    ensures MkDirAll(t, faulty, DirPrefixes(dir)).err.None?
    ensures forall p :: p in DirPrefixes(dir) ==> p in MkDirAll(t, faulty, DirPrefixes(dir)).tree.dirs
  {
    MkDirAllSucceeds(t, faulty, "", Split(dir, '/'));
    MkDirAllSuccess(t, faulty, DirPrefixes(dir));
  }

  /** For a path without empty segments, the last prefix tried is the path itself. */
  lemma {:induction false} LastPrefixIsWhole(acc: Path, parts: seq<string>)
    requires |parts| >= 1
    requires forall i :: 0 <= i < |parts| ==> parts[i] != ""
    requires acc != ""
    ensures Prefixes(acc, parts)[|parts| - 1] == acc + "/" + Join(parts, '/')
    decreases |parts|
  {
    var a := acc + "/" + parts[0];
    assert Prefixes(acc, parts) == [a] + Prefixes(a, parts[1..]);
    if |parts| > 1 {
      LastPrefixIsWhole(a, parts[1..]);
      var rest := Join(parts[1..], '/');
      assert Join(parts, '/') == parts[0] + "/" + rest;
      assert a + "/" + rest == acc + "/" + (parts[0] + "/" + rest);
    }
  }

  /** mkDirRec(dir) ends with `dir` itself when `dir` has no empty segment. */
  lemma DirPrefixesEndWithDir(dir: Path)
    requires forall i :: 0 <= i < |Split(dir, '/')| ==> Split(dir, '/')[i] != ""
    ensures DirPrefixes(dir)[|DirPrefixes(dir)| - 1] == dir
  {
    var segs := Split(dir, '/');
    if |segs| > 1 {
      LastPrefixIsWhole(segs[0], segs[1..]);
      assert segs[0] + "/" + Join(segs[1..], '/') == Join(segs, '/');
    }
  }

  /** mkDirRec: creates each prefix of `dir` in turn, tolerating "already
      exists" and stopping at the first other error. */
  method MkDirRec(fs: Fs, dir: Path) returns (err: Option<Error>)
    modifies fs
    ensures Step(fs.State(), err) == MkDirAll(old(fs.State()), fs.faulty, DirPrefixes(dir))
  {
    var destdir := Split(dir, '/');
    var pathAccum := "";
    var i := 0;
    while i < |destdir|
      invariant 0 <= i <= |destdir|
      invariant MkDirAll(old(fs.State()), fs.faulty, DirPrefixes(dir))
             == MkDirAll(fs.State(), fs.faulty, Prefixes(pathAccum, destdir[i..]))
    {
      var seg := destdir[i];
      ghost var ps := Prefixes(pathAccum, destdir[i..]);
      assert destdir[i..][0] == seg && destdir[i..][1..] == destdir[i + 1..];
      if pathAccum != "" {
        pathAccum := pathAccum + "/";
      }
      pathAccum := pathAccum + seg;
      assert ps[0] == pathAccum && ps[1..] == Prefixes(pathAccum, destdir[i + 1..]);
      err := fs.MkDir(pathAccum);
      if err.Some? && !err.value.Exist? {
        return;
      }
      i := i + 1;
    }
    err := None;
  }

  // ---------------------------------------------------------------------
  // Rendering one file (renderer.renderFile)

  /** A parsed body template; what it renders to is up to the engine. */
  datatype Tmpl = Tmpl(name: Path)

  /** What executing a body template streams into the open output file before
      it finishes or fails: the bytes written so far, and the error, if any. */
  datatype Exec = Exec(out: Bytes, err: Option<Error>)

  /** text/template together with the source tree and the render context,
      which are fixed for a run: parsing a source file's body, expanding an
      output name (parsing and executing the name as a template), and
      executing a parsed body. Any of them may fail. */
  datatype Engine = Engine(
    parse: Path -> Result<Tmpl, Error>,
    expand: string -> Result<Path, Error>,
    exec: Tmpl -> Exec)

  /** The output name before expansion: the source path with one trailing
      marker removed. */
  function OutputName(src: Path): Path {
    TrimSuffix(src, TemplateExt)
  }

  /** The unexpanded output name is a prefix of the source path; it differs
      from it exactly when the path ends in the marker, and then adding the
      marker back gives the path. So an entry is a template exactly when it is
      a file whose output name plus the marker is its path. */
  lemma OutputNameShape(src: Path, isDir: bool)
    ensures HasPrefix(src, OutputName(src))
    ensures OutputName(src) != src <==> HasSuffix(src, TemplateExt)
    ensures OutputName(src) != src ==> OutputName(src) + TemplateExt == src
    ensures IsTemplate(Entry(src, isDir)) <==> !isDir && OutputName(src) + TemplateExt == src
  {
  }

  /** The unexpanded output name of `base` + marker is `base`, and a name with
      no marker is kept as it is. */
  lemma OutputNameStripsOneMarker(base: Path)
    ensures OutputName(base + TemplateExt) == base
    ensures !HasSuffix(base, TemplateExt) ==> OutputName(base) == base
  {
    TrimSuffixOnce(base, TemplateExt);
  }

  /** The repository's example: no template action in the name, so only the
      marker goes. */
  lemma OutputNameExample()
    ensures OutputName("dir1/dir2/file3.txt.template") == "dir1/dir2/file3.txt"
  {
    OutputNameStripsOneMarker("dir1/dir2/file3.txt");
    assert "dir1/dir2/file3.txt" + TemplateExt == "dir1/dir2/file3.txt.template";
  }

  /** The effect of renderFile(src) on the destination, and its error: parse
      the body; make the directories of the SOURCE path; remove a stale copy
      of the source path (a missing one is fine); then write the output. */
  function RenderFileSpec(t: Tree, faulty: set<Path>, eng: Engine, src: Path): Step {
    match eng.parse(src)
    case Failure(e) => Step(t, Some(e))
    case Success(tmpl) =>
      var made := MkDirAll(t, faulty, DirPrefixes(Dir(src)));
      if made.err.Some? && !made.err.value.Exist? then made
      else ReplaceOutput(made.tree, faulty, eng, src, tmpl)
  }

  /** The steps after the directories exist: remove a stale copy of the
      source path (a missing one is fine), then write the output. */
  function ReplaceOutput(t: Tree, faulty: set<Path>, eng: Engine, src: Path, tmpl: Tmpl): Step {
    var removed := RemoveStep(t, faulty, src);
    if removed.err.Some? && !removed.err.value.NotExist? then removed
    else WriteOutput(removed.tree, faulty, eng, src, tmpl)
  }

  /** The last steps of renderFile: expand the output name, open it for
      truncating write, and stream the executed body into it. */
  function WriteOutput(t: Tree, faulty: set<Path>, eng: Engine, src: Path, tmpl: Tmpl): Step {
    match eng.expand(OutputName(src))
    case Failure(e) => Step(t, Some(e))
    case Success(out) =>
      var created := CreateStep(t, faulty, out);
      if created.err.Some? then created
      else
        var x := eng.exec(tmpl);
        Step(AppendStep(created.tree, out, x.out), x.err)
  }

  /** A body that does not parse is reported before the destination is touched. */
  lemma RenderFileParseFailure(t: Tree, faulty: set<Path>, eng: Engine, src: Path)
    requires eng.parse(src).Failure?
    ensures RenderFileSpec(t, faulty, eng, src) == Step(t, Some(eng.parse(src).error))
  {
  }

  /** After a successful renderFile(src): the output file holds exactly the
      executed body, whatever was there before (the open truncates); the
      source path is gone unless the output has the same name; the
      directories of the source path exist and no other directory appeared;
      every other file is as it was. */
  lemma RenderFileSuccess(t: Tree, faulty: set<Path>, eng: Engine, src: Path)
    requires RenderFileSpec(t, faulty, eng, src).err.None?
    ensures eng.parse(src).Success? && eng.expand(OutputName(src)).Success?
    ensures var out := eng.expand(OutputName(src)).value;
            var r := RenderFileSpec(t, faulty, eng, src).tree;
      && eng.exec(eng.parse(src).value).err.None?
      && out in r.files && r.files[out] == eng.exec(eng.parse(src).value).out
      && (src != out ==> src !in r.files)
      && r.dirs == t.dirs + Elems(DirPrefixes(Dir(src)))
      && (forall q :: q != src && q != out ==> (q in r.files <==> q in t.files))
      && (forall q :: q != src && q != out && q in t.files ==> q in r.files && r.files[q] == t.files[q])
  {
    var ps := DirPrefixes(Dir(src));
    var made := MkDirAll(t, faulty, ps);
    if made.err.Some? {
      MkDirAllFailure(t, faulty, ps);
    }
    MkDirAllSuccess(t, faulty, ps);
    MkDirAllKeepsFiles(t, faulty, ps);
    ReplaceOutputSuccess(made.tree, faulty, eng, src, eng.parse(src).value);
  }

  /** After the output is written successfully: it holds exactly the executed
      body, no directory changed, and every other file is as it was. */
  lemma WriteOutputSuccess(t: Tree, faulty: set<Path>, eng: Engine, src: Path, tmpl: Tmpl)
    requires WriteOutput(t, faulty, eng, src, tmpl).err.None?
    ensures eng.expand(OutputName(src)).Success?
    ensures var out := eng.expand(OutputName(src)).value;
            var r := WriteOutput(t, faulty, eng, src, tmpl).tree;
      && eng.exec(tmpl).err.None?
      && out in r.files && r.files[out] == eng.exec(tmpl).out
      && r.dirs == t.dirs
      && (forall q :: q != out ==> (q in r.files <==> q in t.files))
      && (forall q :: q != out && q in t.files ==> q in r.files && r.files[q] == t.files[q])
  {
    var out := eng.expand(OutputName(src)).value;
    var created := CreateStep(t, faulty, out);
    assert created.tree.files == t.files[out := []];
  }

  /** After the stale source is removed and the output written successfully:
      the output holds the executed body, the source is gone unless it is the
      output, no directory changed, and every other file is as it was. */
  lemma ReplaceOutputSuccess(t: Tree, faulty: set<Path>, eng: Engine, src: Path, tmpl: Tmpl)
    requires ReplaceOutput(t, faulty, eng, src, tmpl).err.None?
    ensures eng.expand(OutputName(src)).Success?
    ensures var out := eng.expand(OutputName(src)).value;
            var r := ReplaceOutput(t, faulty, eng, src, tmpl).tree;
      && eng.exec(tmpl).err.None?
      && out in r.files && r.files[out] == eng.exec(tmpl).out
      && (src != out ==> src !in r.files)
      && r.dirs == t.dirs
      && (forall q :: q != src && q != out ==> (q in r.files <==> q in t.files))
      && (forall q :: q != src && q != out && q in t.files ==> q in r.files && r.files[q] == t.files[q])
  {
    var removed := RemoveStep(t, faulty, src);
    assert ReplaceOutput(t, faulty, eng, src, tmpl) == WriteOutput(removed.tree, faulty, eng, src, tmpl);
    WriteOutputSuccess(removed.tree, faulty, eng, src, tmpl);
  }

  /** Making directories that all exist already changes nothing. */
  lemma {:induction false} MkDirAllExisting(t: Tree, faulty: set<Path>, ps: seq<Path>)
    requires Elems(ps) <= t.dirs && Elems(ps) !! faulty
    ensures MkDirAll(t, faulty, ps) == Step(t, None)
    decreases |ps|
  {
    if ps != [] {
      assert ps[0] in Elems(ps);
      assert Elems(ps[1..]) <= Elems(ps);
      MkDirAllExisting(t, faulty, ps[1..]);
    }
  }

  /** After a successful render, the source and output names are usable
      paths of the destination: neither is faulty nor a directory, and the
      output's directory exists. */
  lemma RenderFileNamesUsable(t: Tree, faulty: set<Path>, eng: Engine, src: Path)
    requires RenderFileSpec(t, faulty, eng, src).err.None?
    ensures eng.expand(OutputName(src)).Success?
    ensures var out := eng.expand(OutputName(src)).value;
            var r := RenderFileSpec(t, faulty, eng, src).tree;
      && src !in faulty && src !in r.dirs
      && out !in faulty && out !in r.dirs && Dir(out) in r.dirs
  {
    var made := MkDirAll(t, faulty, DirPrefixes(Dir(src)));
    if made.err.Some? {
      MkDirAllFailure(t, faulty, DirPrefixes(Dir(src)));
    }
  }

  /** Removing the source again and re-creating the output with the same
      contents gives the same tree back. */
  lemma RewriteKeepsTree(r: Tree, faulty: set<Path>, src: Path, out: Path, data: Bytes)
    requires src !in faulty && src !in r.dirs
    requires out !in faulty && out !in r.dirs && Dir(out) in r.dirs
    requires out in r.files && r.files[out] == data
    requires src != out ==> src !in r.files
    ensures var removed := RemoveStep(r, faulty, src);
      && (removed.err.None? || removed.err == Some(NotExist(src)))
      && CreateStep(removed.tree, faulty, out).err.None?
      && AppendStep(CreateStep(removed.tree, faulty, out).tree, out, data) == r
  {
    var removed := RemoveStep(r, faulty, src);
    if src == out {
      assert removed.tree.files == r.files - {src};
    } else {
      assert removed.tree == r;
    }
    var created := CreateStep(removed.tree, faulty, out);
    var f := AppendStep(created.tree, out, data).files;
    assert [] + data == data;
    assert f.Keys == r.files.Keys;
    assert forall k :: k in f ==> f[k] == r.files[k];
  }

  /** Rendering a file a second time, with the same engine, succeeds again and
      leaves the destination exactly as the first time. */
  lemma RenderFileIdempotent(t: Tree, faulty: set<Path>, eng: Engine, src: Path)
    requires RenderFileSpec(t, faulty, eng, src).err.None?
    ensures RenderFileSpec(RenderFileSpec(t, faulty, eng, src).tree, faulty, eng, src)
         == RenderFileSpec(t, faulty, eng, src)
  {
    var ps := DirPrefixes(Dir(src));
    var r := RenderFileSpec(t, faulty, eng, src).tree;
    RenderFileSuccess(t, faulty, eng, src);
    RenderFileNamesUsable(t, faulty, eng, src);
    var made := MkDirAll(t, faulty, ps);
    if made.err.Some? {
      MkDirAllFailure(t, faulty, ps);
    }
    MkDirAllSuccess(t, faulty, ps);
    MkDirAllExisting(r, faulty, ps);
    var out := eng.expand(OutputName(src)).value;
    var x := eng.exec(eng.parse(src).value);
    RewriteKeepsTree(r, faulty, src, out, x.out);
  }

  /** Removing a source path that is neither faulty nor a directory either
      deletes it or finds it missing; either way the output is written next,
      and no directory changes. */
  lemma ReplaceOutputReachesWrite(t: Tree, faulty: set<Path>, eng: Engine, src: Path, tmpl: Tmpl)
    requires src !in faulty && src !in t.dirs
    ensures RemoveStep(t, faulty, src).tree.dirs == t.dirs
    ensures ReplaceOutput(t, faulty, eng, src, tmpl) == WriteOutput(RemoveStep(t, faulty, src).tree, faulty, eng, src, tmpl)
  {
  }

  /** An output name whose directory does not exist cannot be opened: the
      error is "not exist" for that directory and nothing changes. */
  lemma WriteOutputMissingDir(t: Tree, faulty: set<Path>, eng: Engine, src: Path, tmpl: Tmpl, out: Path)
    requires eng.expand(OutputName(src)) == Success(out)
    requires out !in faulty && out !in t.dirs && Dir(out) !in t.dirs
    ensures WriteOutput(t, faulty, eng, src, tmpl) == Step(t, Some(NotExist(Dir(out))))
  {
  }

  /** mkDirRec is applied to the directory of the source path, not of the
      expanded output name: when the directory part of a template's name is
      itself a template that expands to a directory not yet in the
      destination, renderFile creates the unexpanded directory and then fails
      to open the output with "not exist". */
  lemma ExpandedDirectoryIsNotCreated(t: Tree, faulty: set<Path>, eng: Engine,
                                      src: Path, name: Path, base: Path, other: Path)
    requires WellFormed(t)
    requires '/' !in name && '/' !in base
    requires src == name + "/" + base + TemplateExt
    requires eng.parse(src).Success?
    requires eng.expand(name + "/" + base) == Success(other + "/" + base)
    requires other != name && other !in t.dirs
    requires name !in faulty && name !in t.files
    requires src !in faulty && src !in t.dirs
    requires other + "/" + base !in faulty && other + "/" + base !in t.dirs
    ensures name in RenderFileSpec(t, faulty, eng, src).tree.dirs
    ensures RenderFileSpec(t, faulty, eng, src).err == Some(NotExist(other))
  {
    NestedTemplateNames(name, base);
    DirPrefixesOfName(name);
    MkDirOfName(t, faulty, name);
    var made := t.(dirs := t.dirs + {name});
    var tmpl := eng.parse(src).value;
    assert RenderFileSpec(t, faulty, eng, src) == ReplaceOutput(made, faulty, eng, src, tmpl);
    ReplaceOutputReachesWrite(made, faulty, eng, src, tmpl);
    var removed := RemoveStep(made, faulty, src).tree;
    var out := other + "/" + base;
    assert out[|other|] == '/';
    DirOfChild(other, base);
    WriteOutputMissingDir(removed, faulty, eng, src, tmpl, out);
  }

  /** The names involved in rendering `name/base.template`: its directory is
      `name`, and its output name before expansion is `name/base`. */
  lemma NestedTemplateNames(name: Path, base: Path)
    requires '/' !in name && '/' !in base
    ensures Dir(name + "/" + base + TemplateExt) == name
    ensures name + "/" + base + TemplateExt != name
    ensures OutputName(name + "/" + base + TemplateExt) == name + "/" + base
  {
    var src := name + "/" + base + TemplateExt;
    assert src == name + "/" + (base + TemplateExt);
    assert src[|name|] == '/';
    DirOfChild(name, base + TemplateExt);
    OutputNameStripsOneMarker(name + "/" + base);
  }

  /** The directories mkDirRec makes for a slash-free name: just that name. */
  lemma DirPrefixesOfName(name: Path)
    requires '/' !in name
    ensures DirPrefixes(name) == [name]
  {
    assert Split(name, '/') == [name];
  }

  /** mkdir of a slash-free name in a well-formed tree succeeds or finds it
      there already; either way the name is a directory afterwards. */
  lemma MkDirOfName(t: Tree, faulty: set<Path>, name: Path)
    requires WellFormed(t) && '/' !in name
    requires name !in faulty && name !in t.files
    ensures MkDirAll(t, faulty, [name]) == Step(t.(dirs := t.dirs + {name}), None)
  {
    DirOfName(name);
    assert [name][0] == name && [name][1..] == [];
    if name in t.dirs {
      assert t.(dirs := t.dirs + {name}) == t;
    }
  }

  // ---------------------------------------------------------------------
  // The pipeline (RenderTo)

  /** The renderer: the destination it writes and the engine it renders with. */
  class Renderer {
    const dest: Fs
    const engine: Engine

    constructor (dest: Fs, engine: Engine)
      ensures this.dest == dest && this.engine == engine
    {
      this.dest := dest;
      this.engine := engine;
    }

    /** renderFile: the steps of RenderFileSpec, performed on the destination. */
    method RenderFile(src: Path) returns (err: Option<Error>)
      modifies dest
      ensures Step(dest.State(), err) == RenderFileSpec(old(dest.State()), dest.faulty, engine, src)
    {
      var parsed := engine.parse(src);
      if parsed.Failure? {
        return Some(parsed.error);
      }
      err := MkDirRec(dest, Dir(src));
      if err.Some? && !err.value.Exist? {
        return;
      }
      err := Replace(src, parsed.value);
    }

    /** The second half of renderFile, once the directories exist: remove the
        stale source, expand the output name, open it with truncation and
        stream the executed body into it. */
    method Replace(src: Path, tmpl: Tmpl) returns (err: Option<Error>)
      modifies dest
      ensures Step(dest.State(), err) == ReplaceOutput(old(dest.State()), dest.faulty, engine, src, tmpl)
    {
      err := dest.Remove(src);
      if err.Some? && !err.value.NotExist? {
        return;
      }
      var outname := OutputName(src);
      var expanded := engine.expand(outname);
      if expanded.Failure? {
        return Some(expanded.error);
      }
      outname := expanded.value;
      err := dest.Create(outname);
      if err.Some? {
        return;
      }
      var x := engine.exec(tmpl);
      dest.Append(outname, x.out);
      err := x.err;
    }
  }

  /** A worker's run over the discovered paths: the destination afterwards,
      the error it latched, and how many paths it took from the channel. */
  datatype Run = Run(tree: Tree, err: Option<Error>, taken: nat)

  /** One worker applying `render` to `paths` in order and stopping right
      after the first step that fails. */
  function Steps(render: (Tree, Path) -> Step, t: Tree, paths: seq<Path>): Run
    decreases |paths|
  {
    if paths == [] then Run(t, None, 0)
    else
      var s := render(t, paths[0]);
      if s.err.Some? then Run(s.tree, s.err, 1)
      else
        var r := Steps(render, s.tree, paths[1..]);
        Run(r.tree, r.err, r.taken + 1)
  }

  /** renderFile as a step of the worker. */
  function RenderStep(faulty: set<Path>, eng: Engine): (Tree, Path) -> Step {
    (t: Tree, src: Path) => RenderFileSpec(t, faulty, eng, src)
  }

  /** One worker rendering `paths` in order and stopping right after the first
      render that fails. */
  function Work(t: Tree, faulty: set<Path>, eng: Engine, paths: seq<Path>): Run {
    Steps(RenderStep(faulty, eng), t, paths)
  }

  /** Whatever a step does, a worker takes at most every path, and every path
      when no step fails. */
  lemma {:induction false} StepsTakesAll(render: (Tree, Path) -> Step, t: Tree, paths: seq<Path>)
    ensures Steps(render, t, paths).taken <= |paths|
    ensures Steps(render, t, paths).err.None? ==> Steps(render, t, paths).taken == |paths|
    decreases |paths|
  {
    if paths != [] {
      var s := render(t, paths[0]);
      if s.err.None? {
        StepsTakesAll(render, s.tree, paths[1..]);
      }
    }
  }

  /** Whatever a step does, a worker that reports an error stopped right after
      the first failing step, and every earlier step succeeded. */
  lemma {:induction false} StepsStopAtFirstFailure(render: (Tree, Path) -> Step, t: Tree, paths: seq<Path>)
    requires Steps(render, t, paths).err.Some?
    ensures 1 <= Steps(render, t, paths).taken <= |paths|
    ensures var r := Steps(render, t, paths);
      var before := Steps(render, t, paths[..r.taken - 1]);
      before.err.None? && before.taken == r.taken - 1 &&
      render(before.tree, paths[r.taken - 1]) == Step(r.tree, r.err)
    decreases |paths|
  {
    StepsTakesAll(render, t, paths);
    var s := render(t, paths[0]);
    if s.err.Some? {
      assert paths[..0] == [];
    } else {
      var rest := paths[1..];
      StepsStopAtFirstFailure(render, s.tree, rest);
      var r := Steps(render, s.tree, rest);
      var k := r.taken - 1;
      var pre := paths[..k + 1];
      assert pre[0] == paths[0] && pre[1..] == rest[..k];
      var b := Steps(render, s.tree, rest[..k]);
      assert Steps(render, t, pre) == Run(b.tree, b.err, b.taken + 1);
      assert paths[k + 1] == rest[k];
    }
  }

  /** A worker takes at most every path, and every path when nothing fails. */
  lemma WorkTakesAll(t: Tree, faulty: set<Path>, eng: Engine, paths: seq<Path>)
    ensures Work(t, faulty, eng, paths).taken <= |paths|
    ensures Work(t, faulty, eng, paths).err.None? ==> Work(t, faulty, eng, paths).taken == |paths|
  {
    StepsTakesAll(RenderStep(faulty, eng), t, paths);
  }

  /** A worker that reports an error stops right after the first failing
      render: every earlier render succeeded, and the error it reports is that
      render's. */
  lemma WorkStopsAtFirstFailure(t: Tree, faulty: set<Path>, eng: Engine, paths: seq<Path>)
    requires Work(t, faulty, eng, paths).err.Some?
    ensures 1 <= Work(t, faulty, eng, paths).taken <= |paths|
    ensures var r := Work(t, faulty, eng, paths);
      var before := Work(t, faulty, eng, paths[..r.taken - 1]);
      before.err.None? && before.taken == r.taken - 1 &&
      RenderFileSpec(before.tree, faulty, eng, paths[r.taken - 1]) == Step(r.tree, r.err)
  {
    StepsStopAtFirstFailure(RenderStep(faulty, eng), t, paths);
  }

  /** The worker goroutine of RenderTo, alone: for each path it takes, it stops
      if the latch is set, renders the file, offers the result to the latch
      and stops if it was an error. */
  method Worker(r: Renderer, errs: SyncErrs.SyncErrors, paths: seq<Path>) returns (taken: nat)
    requires !errs.closed && errs.slot == None
    modifies r.dest, errs
    ensures var run := Work(old(r.dest.State()), r.dest.faulty, r.engine, paths);
      r.dest.State() == run.tree && errs.slot == run.err && taken == run.taken && !errs.closed
  {
    taken := 0;
    var stop := false;
    while taken < |paths| && !stop
      invariant taken <= |paths|
      invariant !errs.closed && (stop <==> errs.slot.Some?)
      invariant var run := Work(old(r.dest.State()), r.dest.faulty, r.engine, paths);
        if stop then run == Run(r.dest.State(), errs.slot, taken)
        else
          var rest := Work(r.dest.State(), r.dest.faulty, r.engine, paths[taken..]);
          run == Run(rest.tree, rest.err, rest.taken + taken)
      decreases |paths| - taken
    {
      var src := paths[taken];
      assert paths[taken..][0] == src && paths[taken..][1..] == paths[taken + 1..];
      taken := taken + 1;
      stop := errs.Failed();
      if !stop {
        var e := r.RenderFile(src);
        stop := errs.SetFailedOnErr(e);
      }
    }
  }

  /** RenderTo with one worker: walk, render every discovered path in order
      until one fails, then report the walk error if there is one, else the
      latched render error, else nil. The remaining paths of the walk are
      discarded once the worker stops. */
  method RenderTo(walk: seq<Entry>, walkErr: Option<Error>, dest: Fs, engine: Engine) returns (err: Option<Error>)
    modifies dest
    ensures var run := Work(old(dest.State()), dest.faulty, engine, Discovered(walk));
      dest.State() == run.tree && err == (if walkErr.Some? then walkErr else run.err)
  {
    var r := new Renderer(dest, engine);
    var res, walkErrs := WalkDir(walk, walkErr);
    var errs := new SyncErrs.SyncErrors();
    var _ := Worker(r, errs, res);
    err := walkErrs;
    if err.None? {
      err := errs.Close();
    }
  }

  /** How RenderTo as written ends: it returns, or it waits forever. */
  datatype Outcome = Returned(err: Option<Error>) | Blocked

  /** RenderTo as written: the walk hands paths over an unbuffered channel and
      sends its error only after the last one, and RenderTo waits for that
      error before anything else. When the worker has stopped with paths still
      to hand over, the walk waits for a receiver that never comes and
      RenderTo never returns. */
  function AsWrittenOutcome(walkErr: Option<Error>, run: Run, total: nat): Outcome {
    if run.taken < total then Blocked
    else Returned(if walkErr.Some? then walkErr else run.err)
  }

  /** RenderTo as written, with one worker. */
  method RenderToAsWritten(walk: seq<Entry>, walkErr: Option<Error>, dest: Fs, engine: Engine) returns (o: Outcome)
    modifies dest
    ensures var run := Work(old(dest.State()), dest.faulty, engine, Discovered(walk));
      dest.State() == run.tree && o == AsWrittenOutcome(walkErr, run, |Discovered(walk)|)
  {
    var r := new Renderer(dest, engine);
    var res, walkErrs := WalkDir(walk, walkErr);
    var errs := new SyncErrs.SyncErrors();
    var taken := Worker(r, errs, res);
    if taken < |res| {
      return Blocked;
    }
    var err := walkErrs;
    if err.None? {
      err := errs.Close();
    }
    o := Returned(err);
  }

  /** RenderTo as written blocks exactly when a render fails before the last
      discovered path. */
  lemma AsWrittenBlocksIff(t: Tree, faulty: set<Path>, eng: Engine, paths: seq<Path>, walkErr: Option<Error>)
    ensures var run := Work(t, faulty, eng, paths);
      AsWrittenOutcome(walkErr, run, |paths|) == Blocked <==> run.err.Some? && run.taken < |paths|
  {
    WorkTakesAll(t, faulty, eng, paths);
  }

  /** An engine whose body parse fails on "a.template" only. */
  const FailsOnA: Engine := Engine(
    p => if p == "a.template" then Failure(ParseFault(p)) else Success(Tmpl(p)),
    n => Success(n),
    tm => Exec([], None))

  /** Two templates, the first of which does not parse: as written, RenderTo
      never returns; with the worker's leftovers discarded, it reports the
      parse error. */
  lemma AsWrittenDeadlock()
    ensures var walk := [Entry("a.template", false), Entry("b.template", false)];
            var run := Work(Tree({"."}, map[]), {}, FailsOnA, Discovered(walk));
      && AsWrittenOutcome(None, run, |Discovered(walk)|) == Blocked
      && run.err == Some(ParseFault("a.template"))
  {
    var walk := [Entry("a.template", false), Entry("b.template", false)];
    assert walk[..1] == [walk[0]] && walk[..1][..0] == [];
    assert IsTemplate(walk[0]) && IsTemplate(walk[1]);
    assert Discovered(walk) == ["a.template", "b.template"];
  }
}
