# templatedir, modelled in Dafny

templatedir renders a directory tree of Go templates into a destination tree.
Every file whose path ends in `.template` is parsed as a body template. Its
output name is the path with one `.template` removed, then expanded as a
template itself. The executed body is written to that output name. The values
the templates see come from the process environment and from the repository's
identity (author, repository name, local root), plus optional GitHub API
records.

This project models the sequential logic of that renderer:

- **The error latch** (`syncerrors.go`). It is the capacity-1 channel that
  keeps the first render error of a run (`sync_errors.dfy`). It is a class with
  a one-element `slot` and a `closed` flag. A fold over sends (`LatchAll`) says
  what the latch holds after any sequence of `SetFailedOnErr` calls.
- **The destination file system** (`write_fs.dfy`). It is abstract: a set of
  directories plus a map from path to bytes. mkdir reports "already exists"
  for a directory, "not a directory" for a file and "not exist" for a missing
  parent. remove reports "not exist" for a missing path and "is a directory"
  for a directory. create reports "is a directory" and "not exist" in the
  same way. A fixed set of faulty paths fails with yet another error.
- **The rendering pipeline** (`template_dir.dfy`). It covers:
  - the discovery filter of `walkDir`;
  - `mkDirRec`;
  - `renderFile`, with template parsing and execution as an opaque, possibly
    failing `Engine`;
  - `RenderTo`, as one sequential worker over the discovered paths, with its
    result rule: the walk error first, else the latched render error, else nil.
- **The template arguments of `args.go`** (`repo_args.dfy`). It covers:
  - splitting `KEY=VALUE` entries into the argument map;
  - reading the identity from the GitHub Actions variables or from the git
    remote;
  - assembling the map in `DefaultArgs`.

  The environment, the working directory, git's output and the GitHub API
  answers are parameters.
- **The Go library calls the code relies on** (`go_strings.dfy`): the
  `strings` functions it uses and `path.Dir`, on `seq<char>`.

Each state-changing operation is a method whose postcondition ties the new
state to a function of the old one. Examples: `MkDirRec` and `MkDirAll`,
`Renderer.RenderFile` and `RenderFileSpec`, `RenderTo` and `Work`,
`Args.InitFromOSEnv` and `EnvOverlay`. The lemmas are stated about those
functions.

Three points of the code that shape the model:

- **Closing the latch.** `Close` closes the channel. A later `Close`,
  `Failed` or non-nil `SetFailedOnErr` panics, so the model requires an open
  latch for them. `SetFailedOnErr(nil)` touches no channel, so it is allowed
  on a closed latch.
- **What `SetFailedOnErr` returns.** It returns whether its argument is
  non-nil, not whether the slot is full. A nil error on a full latch returns
  false.
- **Which directories are made.** `renderFile` makes the directories of the
  source path, not of the expanded output name (`templatedir.go:117`).

## Model

| member | source | states |
|---|---|---|
| SyncErrs.SyncErrors.constructor | templatedir.go:31 | a fresh latch is open and empty |
| SyncErrs.SyncErrors.Failed | syncerrors.go:7-19 | reports true exactly when the slot holds an error; the slot is as it was and the latch stays open; requires an open latch (the re-send panics on a closed one) |
| SyncErrs.SyncErrors.Close | syncerrors.go:22-31 | returns the stored error, or nil; the latch is empty and closed afterwards; requires an open latch (a second close panics) |
| SyncErrs.SyncErrors.SetFailedOnErr | syncerrors.go:34-44 | returns true exactly for a non-nil error, stored or not; an empty slot takes the error; a full slot keeps its first error; nil changes nothing; never blocks |
| SyncErrs.Latch | syncerrors.go:36-39 | a non-blocking send into the one-element buffer: an empty slot takes a non-nil error, a full slot keeps its error, and nil changes nothing |
| SyncErrs.FirstErrorWins | syncerrors.go:34-44 | after any sequence of sends, an empty latch holds the first non-nil error sent, or nothing; a full latch keeps what it held |
| SyncErrs.FullLatchIsStable | syncerrors.go:36-39 | a full latch holds exactly the same error whatever is sent afterwards |
| WriteFs.Fs.MkDir | templatedir.go:96 | the directory is created when its parent exists; "already exists", "not a directory", "missing parent" and fault cases leave the tree unchanged |
| WriteFs.Fs.Remove | templatedir.go:122 | the file is deleted; a missing path reports "not exist"; a directory or a faulty path is an error and changes nothing |
| WriteFs.Fs.Create | templatedir.go:140 | opening with create and truncate leaves the file empty, whatever it held, when the parent exists; otherwise an error and no change |
| WriteFs.Fs.Append | templatedir.go:146 | a write to the open file appends to its contents |
| TemplateDir.WalkDir | templatedir.go:62-80 | the paths sent are exactly the discovered sequence; the walk error, if any, is reported once, after the last path |
| TemplateDir.DiscoveredExactly | templatedir.go:66-70 | a path is discovered if and only if some walked entry with that path is not a directory and ends in `.template` |
| TemplateDir.DiscoveredGrows | templatedir.go:66-71 | a longer walk only appends to what a shorter one discovered; no entry stops the walk |
| TemplateDir.DiscoveredSnoc | templatedir.go:66-70 | walking one more entry appends its path exactly when it is a template |
| TemplateDir.DiscoveredAt | templatedir.go:66-70 | a template entry sits at its position in the discovered sequence |
| TemplateDir.DiscoveredInWalkOrder | templatedir.go:66-70 | every template entry sits at its position in the discovered sequence, and two template entries keep their walk order |
| TemplateDir.DiscoveredFixtureShape | templatedir_test.go:28-32 | in any walk of five directories and three templates arranged like the test's expected listing, exactly the three templates are found, in order |
| TemplateDir.FixtureDiscovery | templatedir_test.go:28-32 | a walk shaped like the test's expected listing yields exactly the three paths the test expects, in order |
| TemplateDir.MkDirRec | templatedir.go:82-103 | the destination and error after mkDirRec(dir) are those of trying every '/'-joined prefix of dir's segments, shortest first, tolerating "already exists" |
| TemplateDir.MkDirStepOutcome | templatedir.go:96-99 | one mkdir never touches files; after success or "already exists" the path is a directory; any error leaves the tree unchanged |
| TemplateDir.MkDirAllKeepsFiles | templatedir.go:82-103 | mkDirRec never changes a file |
| TemplateDir.MkDirAllSuccess | templatedir.go:82-103 | on success every prefix is a directory, none was faulty, and no other directory appeared |
| TemplateDir.MkDirAllFailure | templatedir.go:96-99 | on failure the error is never "already exists"; it is the error of one prefix's mkdir, exactly the shorter prefixes exist, and longer ones are untried |
| TemplateDir.MkDirAllSucceeds | templatedir.go:88-100 | shortest-first creation means each parent exists when its child is made, so with no faulty prefix and no file on the way the creation succeeds |
| TemplateDir.MkDirRecSucceeds | templatedir.go:82-103 | on a well-formed tree with no faulty or file prefix, mkDirRec(dir) succeeds and every prefix of dir is a directory |
| TemplateDir.LastPrefixIsWhole | templatedir.go:88-95 | the accumulated path after the last segment is the whole joined path |
| TemplateDir.DirPrefixesEndWithDir | templatedir.go:83-95 | for a path without empty segments, the last directory made is the path itself |
| TemplateDir.DirPrefixesOfName | templatedir.go:83-95 | mkDirRec of a slash-free name tries just that name |
| TemplateDir.MkDirOfName | templatedir.go:90-100 | mkDirRec of a slash-free name, neither faulty nor a file, succeeds and leaves the name a directory |
| TemplateDir.OutputNameShape | templatedir.go:127 | `OutputName`: the unexpanded output name is a prefix of the source path; it differs from it exactly when the path ends in `.template`, and then adding the marker back gives the path; `IsTemplate` (templatedir.go:67): an entry is a template exactly when it is not a directory and its path is its output name followed by `.template` |
| TemplateDir.OutputNameStripsOneMarker | templatedir.go:127 | the unexpanded output name of `base.template` is `base`; only one marker is removed; a name without the marker is kept |
| TemplateDir.OutputNameExample | templatedir_test.go:45-51 | `dir1/dir2/file3.txt.template` becomes `dir1/dir2/file3.txt` before expansion |
| TemplateDir.Renderer.constructor | templatedir.go:32-36 | the renderer writes to the given destination with the given engine |
| TemplateDir.Renderer.RenderFile | templatedir.go:111-147 | destination and error are those of: parse the body; make the source directories ("already exists" tolerated); then the steps of Replace |
| TemplateDir.Renderer.Replace | templatedir.go:122-146 | destination and error are those of: remove the stale source copy ("not exist" tolerated); expand the output name; open it with truncation; stream the executed body |
| TemplateDir.RenderFileParseFailure | templatedir.go:111-115 | a body that fails to parse is reported before the destination is touched |
| TemplateDir.RenderFileSuccess | templatedir.go:111-147 | after success: the output holds exactly the executed body (replaced, not appended); the source path is gone unless it is the output; the source's directories exist and no other appeared; every other file is unchanged |
| TemplateDir.WriteOutputSuccess | templatedir.go:127-146 | after a successful write the output holds exactly the executed body, no directory changed, and every other file is as it was |
| TemplateDir.ReplaceOutputSuccess | templatedir.go:122-146 | after a successful removal and write the output holds the executed body, the source is gone unless it is the output, and every other file is as it was |
| TemplateDir.RenderFileNamesUsable | templatedir.go:117-143 | after success, neither the source nor the output name is faulty or a directory, and the output's directory exists |
| TemplateDir.RewriteKeepsTree | templatedir.go:122-146 | removing the source again and re-creating the output with the same bytes gives the same tree |
| TemplateDir.RenderFileIdempotent | templatedir.go:111-147 | rendering a file a second time succeeds again and leaves the destination exactly as the first time |
| TemplateDir.ReplaceOutputReachesWrite | templatedir.go:122-126 | removing a source path that is neither faulty nor a directory deletes it or finds it missing, and writing the output comes next with no directory changed |
| TemplateDir.WriteOutputMissingDir | templatedir.go:140-143 | an output name whose directory does not exist fails with "not exist" for that directory and changes nothing |
| TemplateDir.NestedTemplateNames | templatedir.go:117-127 | `name/base.template` has directory `name` and unexpanded output name `name/base` |
| TemplateDir.ExpandedDirectoryIsNotCreated | templatedir.go:117-143 | when the source's directory name expands to a directory not yet present, renderFile creates the unexpanded directory and fails opening the output with "not exist" for the expanded one |
| TemplateDir.StepsTakesAll | templatedir.go:40-48 | whatever one render does, the worker takes at most every path, and every path when no render fails |
| TemplateDir.StepsStopAtFirstFailure | templatedir.go:40-48 | whatever one render does, a worker that reports an error stopped right after the first failing render, every earlier render having succeeded |
| TemplateDir.WorkTakesAll | templatedir.go:40-48 | the worker takes at most every path, and every path when no render fails |
| TemplateDir.WorkStopsAtFirstFailure | templatedir.go:40-48 | when the worker reports an error it stopped right after the first failing render: all earlier renders succeeded, and the latched error is that render's |
| TemplateDir.Worker | templatedir.go:38-50 | the worker loop leaves the destination, the latch and the number of paths taken as the sequential run over the paths says |
| TemplateDir.RenderTo | templatedir.go:24-60 | the result is the walk error if any, else the first render error, else nil; the destination is that of rendering the discovered paths in order until the first failure |
| TemplateDir.RenderToAsWritten | templatedir.go:24-80 | as written, with one worker, RenderTo never returns when the worker stops before the last discovered path; otherwise it returns the result rule |
| TemplateDir.AsWrittenBlocksIff | templatedir.go:40-52 | as written, RenderTo blocks exactly when a render fails with discovered paths still undelivered |
| TemplateDir.AsWrittenDeadlock | templatedir.go:52-68 | two templates whose first fails to parse: as written RenderTo blocks forever, although the run's error is that parse error |
| GoStrings.AffixByCharacters | templatedir.go:67 | `HasSuffix` (the walk's test) holds exactly when every character of the suffix matches the end of the string, and `HasPrefix` (the provider test at args.go:134) exactly when every character of the prefix matches its start |
| GoStrings.TrimSuffix | templatedir.go:127 | drops one trailing suffix when present, else returns the input |
| GoStrings.TrimSuffixOnce | templatedir.go:127 | trimming an appended suffix gives the original back, so only one copy is removed |
| GoStrings.TrimPrefix | args.go:138 | drops one leading prefix when present, else returns the input |
| GoStrings.TrimRight | args.go:132 | the result is a prefix of the input, everything dropped is in the cutset, and the result does not end in a cutset character |
| GoStrings.TrimRightTail | args.go:132 | a trailing run of cutset characters after a non-cutset character is exactly what is removed |
| GoStrings.Split | templatedir.go:83 | never empty; no part holds the separator; joining the parts gives the input back |
| GoStrings.SplitJoin | args.go:140 | splitting a join of separator-free parts gives the parts back |
| GoStrings.SplitHead | args.go:140 | the parts of `a/rest` are `a` followed by the parts of `rest` when `a` has no separator |
| GoStrings.SplitFirstTwo | args.go:140-143 | the first two parts of `a/b` followed by nothing or by a further `/…` are `a` and `b` |
| GoStrings.SplitN2 | args.go:33 | with no separator the whole string; otherwise the text before the first separator and everything after it |
| GoStrings.SplitN2First | args.go:114 | the split happens at the first separator; later ones stay in the second part |
| GoStrings.Dir | templatedir.go:117 | "." for a slash-free path; otherwise the text before the last '/' |
| GoStrings.DirOfChild | templatedir.go:117 | the directory of `acc/seg` is `acc` when `seg` has no '/' |
| RepoArgs.EntryKey | args.go:33-34 | an entry's key never holds '=' |
| RepoArgs.EntrySplitsAtFirstEquals | args.go:33-36 | `key=value` splits into key and value even when the value holds further '=' |
| RepoArgs.EntryRebuilds | args.go:33-36 | key, '=' and value give the entry back |
| RepoArgs.Args.constructor | args.go:50 | a declared argument map reads as empty |
| RepoArgs.Args.InitFromOSEnv | args.go:28-38 | the map afterwards is the old one with every entry stored in order |
| RepoArgs.Args.Set | args.go:65-74 | one key is set and the rest of the map is unchanged |
| RepoArgs.Keys | args.go:32-34 | the keys of the entries, one per entry, in order |
| RepoArgs.EnvOverlayKeys | args.go:28-38 | after loading, a key is present if and only if it was present before or some entry names it |
| RepoArgs.EnvOverlayLastWins | args.go:32-37 | the last entry naming a key decides its value |
| RepoArgs.EnvOverlayKeeps | args.go:28-38 | a key no entry names keeps whatever the map held |
| RepoArgs.FromGHActionEnv | args.go:108-120 | an empty repository variable means "not found"; otherwise author and name join back to the variable with the author free of '/', and the root is the workspace |
| RepoArgs.FromGHActionEnvRoundTrip | args.go:108-120 | `author/name` gives back author and name, even with further '/' in the name |
| RepoArgs.RemoteDropsTrailing | args.go:132 | trailing spaces, tabs and line ends after the remote are removed |
| RepoArgs.TrimPrefixOf | args.go:138 | removing the GitHub prefix leaves the owner path |
| RepoArgs.FromGit | args.go:122-146 | the root is always the directory given; a failed git is an error quoting the output; a remote not starting with `https://github.com/` is an unknown-provider error; on success neither author nor name holds '/', and the owner path starts with `author/name` |
| RepoArgs.FromGitOfOwnerPath | args.go:132-143 | a successful run whose trimmed output is `https://github.com/author/last`, followed by nothing or by further `/…` segments, gives `author` and `last` without one trailing `.git` |
| RepoArgs.FromGitRoundTrip | args.go:122-146 | a GitHub remote with or without `.git` and with trailing whitespace gives back author and name |
| RepoArgs.FromGitExample | args_test.go:30-45 | the repository's own remote gives `parro-it` and `templatedir` with the working directory as root |
| RepoArgs.GHInfos | args.go:79-83 | without a token there is no user, no repository and no error |
| RepoArgs.ResolveInfo | args.go:53-63 | a named Actions repository wins; otherwise a failed working directory is the error; otherwise exactly git's identity or git's error, rooted at the working directory |
| RepoArgs.ActionsEnvWins | args.go:53-63 | in an Actions run the identity is `author/name` from its variables, rooted at the workspace |
| RepoArgs.GitRemoteWins | args.go:53-63 | outside Actions, with a known working directory and a GitHub `origin` remote, the identity is the remote's author and name, rooted at the working directory |
| RepoArgs.DefaultArgs | args.go:45-77 | the returned map or error is the environment, overridden by the identity keys, then the GitHub records |
| RepoArgs.DefaultArgsKeys | args.go:51-74 | on success the keys are exactly Author, RepoName, Root, User, Repo and those the environment's entries name |
| RepoArgs.DefaultArgsFailsIff | args.go:45-77 | DefaultArgs fails exactly when the identity cannot be found or, with a token, the GitHub API fails |
| RepoArgs.DefaultArgsIdentity | args.go:65-73 | Author, RepoName and Root hold the identity whatever the environment says; without a token User and Repo are nil |
| RepoArgs.DefaultArgsEnvKeys | args.go:51-67 | every other key is present exactly when some environment entry names it |
| RepoArgs.DefaultArgsEnvValue | args.go:51-67 | such a key holds the value of the last entry naming it |

## Left out

- The goroutine pool, `sync.WaitGroup` and `runtime.NumCPU` are left out. `RenderTo` is one sequential worker over the discovered paths, so concurrent interleavings and the order of outputs across workers are not modelled.
- SyncErrs.SyncErrors.Failed: the model's peek is one atomic step. In Go it is a receive followed by a separate send-back (`syncerrors.go:9-11`). A concurrent `SetFailedOnErr` can fill the emptied slot between the two, the send-back then takes `default` (`syncerrors.go:13`), and the first error is lost. So with several workers the first error does not always win; `FirstErrorWins` holds only for calls made one at a time.
- TemplateDir.RenderTo: discards the paths left in the channel once the worker stops. The code as written does not; see "Findings".
- `fs.WalkDir` itself is left out. The walk is an input sequence of entries and its error is a parameter.
  - With the callback as written, `fs.WalkDir` returns the callback's nil, so in practice the walk error is nil.
  - An unreadable root reaches the callback with a nil entry and `d.IsDir()` panics. That is not modelled.
- `text/template` is an opaque `Engine`. It covers parsing a body, expanding an output name (its parse and execute failures merged into one) and executing a body.
  - What the templates compute from the arguments is not modelled.
  - The body's executed output is the bytes it streamed before finishing or failing.
- The `syncfs`, `memfs`, `writefs` and `osfs` libraries are replaced by the abstract file system of `WriteFs`.
  - Besides the fixed `faulty` set, its operations fail according to the tree's shape, and these failures are this model's choices, not those of any real file system.
  - A write to an open file cannot fail.
  - The deferred close of the output file is not modelled.
- WriteFs.MkDirStep: mkdir on an existing file reports "not a directory", which stops mkDirRec. `os.Mkdir` reports "already exists" there, which `templatedir.go:97` tolerates, so on the operating system mkDirRec goes on, and the failure comes from the next mkdir or from opening the output.
- WriteFs.RemoveStep: remove of a directory always fails with "is a directory". `os.Remove` deletes an empty directory.
- `path.Dir` is modelled without `path.Clean`: the text before the last '/'. Walked paths are already clean.
- `os.Environ`, `os.Getenv`, `os.Getwd` and `exec.Command("git", …)` are I/O. Their results are parameters, and the git command's error is a boolean.
- `getGHInfos` with a token, `githubAuth` and oauth2 are network calls. Their combined answer is a parameter, and the user and repository records are opaque values.
- RepoArgs.Args.InitFromOSEnv: Go replaces an empty map with a fresh one; the model treats them as the same, so aliasing of a shared empty map is not captured.
- Panics from indexing a split without a separator are preconditions: an environment entry without '=', a repository variable without '/', a GitHub remote without '/' after the host.
- `Args.String` (JSON marshalling), the `fmt.Println` debug line and the command-line program in `cli/tmpldir` are left out.
- The error messages' texts are not modelled. Errors are values that keep a path or the output.
  - `MkDirStep` and `CreateStep` report a missing parent as "not exist" of the parent directory, while Go's `PathError` quotes the path that was being made or opened.
- Source and destination are modelled as separate trees: `Engine.parse` is a fixed function that never sees the destination. The package can render a directory into itself, and the command-line program does so. There the `Remove` at `templatedir.go:122` deletes the template file itself, so a second render fails at parsing. That in-place rendering, which consumes the templates, is not captured.
- TemplateDir.RenderFileIdempotent: holds only for a destination separate from the source.

## Findings

| source | as written | input that shows it | evidently intended | confidence | as-written member | corrected member |
|---|---|---|---|---|---|---|
| templatedir.go:40-52, 68 | Workers return on the first failure without draining `res`. The walk goroutine then blocks forever on its unbuffered send of the next path, and RenderTo blocks on `<-walkErrs`. | One worker, templates `a.template` and `b.template`, and a body parse failure on `a.template`. | RenderTo returns that parse error, with the remaining paths discarded. | high (not executed) | TemplateDir.AsWrittenDeadlock | TemplateDir.RenderTo |
