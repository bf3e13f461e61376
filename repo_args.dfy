/** The template arguments of args.go: the process environment as a map, plus
    the repository's identity (author, name and local root), found either in
    the GitHub Actions environment or by parsing the `origin` remote of git,
    plus the GitHub user and repository records when a token is available.
    The environment, the working directory, git's output and the GitHub API
    answers are parameters. */
module RepoArgs {
  import opened Wrappers
  import opened GoStrings

  /** A value of the argument map: a string, or what the GitHub API returned
      for the user and the repository (nil when there is no token). */
  datatype Value =
    | Text(s: string)
    | Nil
    | GhUser(login: string)
    | GhRepository(fullName: string)

  /** The identity of the repository being rendered. */
  datatype RepoInfo = RepoInfo(author: string, repoName: string, root: string)

  /** The GitHub user and repository records. */
  datatype GhInfo = GhInfo(user: Value, repo: Value)

  const GhPrefix := "https://github.com/"
  const GitSuffix := ".git"
  /** The characters trimmed from the end of git's output. */
  const Cutset: set<char> := {' ', '\t', '\n', '\r'}

  // ---------------------------------------------------------------------
  // The environment (Args.InitFromOSEnv)

  /** An environment entry has the form KEY=VALUE; one without '=' makes the
      Go code index past the end of its split and panic. */
  predicate EnvWellFormed(env: seq<string>) {
    forall i :: 0 <= i < |env| ==> '=' in env[i]
  }

  /** The text before the first '=' of an entry. */
  function EntryKey(entry: string): (k: string)
    requires '=' in entry
    ensures '=' !in k
  {
    SplitN2(entry, '=')[0]
  }

  /** Everything after the first '=' of an entry, later '=' included. */
  function EntryValue(entry: string): string
    requires '=' in entry
  {
    SplitN2(entry, '=')[1]
  }

  /** An entry is its key, '=' and its value; the split is at the first '='
      only, so a value may itself hold '='. */
  lemma EntrySplitsAtFirstEquals(key: string, value: string)
    requires '=' !in key
    ensures EntryKey(key + "=" + value) == key
    ensures EntryValue(key + "=" + value) == value
  {
    SplitN2First(key, value, '=');
  }

  /** The entry round trip in the other direction. */
  lemma EntryRebuilds(entry: string)
    requires '=' in entry
    ensures EntryKey(entry) + "=" + EntryValue(entry) == entry
  {
  }

  /** The map `m` after storing every entry of `env`, in order. */
  function EnvOverlay(m: map<string, Value>, env: seq<string>): map<string, Value>
    requires EnvWellFormed(env)
  {
    if env == [] then m
    else
      var e := env[|env| - 1];
      EnvOverlay(m, env[..|env| - 1])[EntryKey(e) := Text(EntryValue(e))]
  }

  /** The keys of the entries, in order. */
  function Keys(env: seq<string>): (ks: seq<string>)
    requires EnvWellFormed(env)
    ensures |ks| == |env|
    ensures forall i :: 0 <= i < |env| ==> ks[i] == EntryKey(env[i])
  {
    if env == [] then []
    else Keys(env[..|env| - 1]) + [EntryKey(env[|env| - 1])]
  }

  /** The keys after the overlay: those of `m` and those of the entries. */
  lemma {:induction false} EnvOverlayKeys(m: map<string, Value>, env: seq<string>, key: string)
    requires EnvWellFormed(env)
    ensures key in EnvOverlay(m, env) <==> key in m || key in Keys(env)
  {
    if env != [] {
      EnvOverlayKeys(m, env[..|env| - 1], key);
    }
  }

  /** The last entry with a key decides that key's value. */
  lemma {:induction false} EnvOverlayLastWins(m: map<string, Value>, env: seq<string>, i: int)
    requires EnvWellFormed(env)
    requires 0 <= i < |env|
    requires forall j :: i < j < |env| ==> EntryKey(env[j]) != EntryKey(env[i])
    ensures EntryKey(env[i]) in EnvOverlay(m, env)
    ensures EnvOverlay(m, env)[EntryKey(env[i])] == Text(EntryValue(env[i]))
  {
    if i < |env| - 1 {
      var init := env[..|env| - 1];
      assert init[i] == env[i];
      EnvOverlayLastWins(m, init, i);
    }
  }

  /** A key no entry names keeps whatever `m` held for it. */
  lemma {:induction false} EnvOverlayKeeps(m: map<string, Value>, env: seq<string>, key: string)
    requires EnvWellFormed(env)
    requires forall j :: 0 <= j < |env| ==> EntryKey(env[j]) != key
    ensures key in EnvOverlay(m, env) <==> key in m
    ensures key in m ==> EnvOverlay(m, env)[key] == m[key]
  {
    if env != [] {
      var init := env[..|env| - 1];
      assert forall j :: 0 <= j < |init| ==> init[j] == env[j];
      EnvOverlayKeeps(m, init, key);
    }
  }

  /** The argument map (type Args map[string]interface{}). */
  class Args {
    var m: map<string, Value>

    /** `var args Args`: a nil map, which reads as empty. */
    constructor ()
      ensures m == map[]
    {
      m := map[];
    }

    /** Stores every KEY=VALUE entry of the environment, in order, replacing
        an empty map by a fresh one first. */
    method InitFromOSEnv(env: seq<string>)
      requires EnvWellFormed(env)
      modifies this
      ensures m == EnvOverlay(old(m), env)
    {
      if |m| == 0 {
        m := map[];
      }
      for i := 0 to |env|
        invariant m == EnvOverlay(old(m), env[..i])
      {
        assert env[..i + 1][..i] == env[..i];
        var parts := SplitN2(env[i], '=');
        var argName := parts[0];
        var argValue := parts[1];
        m := m[argName := Text(argValue)];
      }
      assert env[..|env|] == env;
    }

    /** args[key] = v */
    method Set(key: string, v: Value)
      modifies this
      ensures m == old(m)[key := v]
    {
      m := m[key := v];
    }
  }

  // ---------------------------------------------------------------------
  // The repository's identity

  /** getRepoInfoFromGHActionEnv, given GITHUB_REPOSITORY and
      GITHUB_WORKSPACE: an empty repository variable means "not found";
      otherwise it is split at its first '/' (one without '/' panics). */
  function FromGHActionEnv(ghRepo: string, workspace: string): (r: (RepoInfo, bool))
    requires ghRepo == "" || '/' in ghRepo
    ensures r.1 <==> ghRepo != ""
    ensures !r.1 ==> r.0 == RepoInfo("", "", "")
    ensures r.1 ==> r.0.author + "/" + r.0.repoName == ghRepo
    ensures r.1 ==> '/' !in r.0.author && r.0.root == workspace
  {
    if ghRepo == "" then (RepoInfo("", "", ""), false)
    else
      var parts := SplitN2(ghRepo, '/');
      (RepoInfo(parts[0], parts[1], workspace), true)
  }

  /** Author and name come back from "author/name", even when the name holds
      further slashes. */
  lemma FromGHActionEnvRoundTrip(author: string, name: string, workspace: string)
    requires '/' !in author
    ensures FromGHActionEnv(author + "/" + name, workspace) == (RepoInfo(author, name, workspace), true)
  {
    SplitN2First(author, name, '/');
  }

  /** git's trimmed output, for a run that succeeded. */
  function Remote(out: string): string {
    TrimRight(out, Cutset)
  }

  /** A GitHub remote with nothing after the host but a segment without '/'
      makes the Go code index past the end of its split and panic. */
  predicate GitOutputParses(out: string, ok: bool) {
    ok && HasPrefix(Remote(out), GhPrefix) ==> '/' in TrimPrefix(Remote(out), GhPrefix)
  }

  /** getRepoInfoFromGit(dir), given the combined output of
      `git remote get-url origin` and whether it succeeded. The root is `dir`
      whatever happens; a failed command and a remote that is not a GitHub
      https URL are errors that quote the untrimmed output. */
  function FromGit(dir: string, out: string, ok: bool): (r: (RepoInfo, Option<Error>))
    requires GitOutputParses(out, ok)
    ensures r.0.root == dir
    ensures r.1.None? <==> ok && HasPrefix(Remote(out), GhPrefix)
    ensures !ok ==> r == (RepoInfo("", "", dir), Some(GitFailed(out)))
    ensures ok && !HasPrefix(Remote(out), GhPrefix) ==> r == (RepoInfo("", "", dir), Some(UnknownProvider(out)))
    ensures r.1.None? ==> '/' !in r.0.author && '/' !in r.0.repoName
    ensures r.1.None? ==> HasPrefix(TrimPrefix(Remote(out), GhPrefix), r.0.author + "/" + r.0.repoName)
  {
    var res := RepoInfo("", "", dir);
    if !ok then (res, Some(GitFailed(out)))
    else
      var outs := Remote(out);
      if !HasPrefix(outs, GhPrefix) then (res, Some(UnknownProvider(out)))
      else
        var path := TrimPrefix(outs, GhPrefix);
        var parts := Split(path, '/');
        var name := TrimSuffix(parts[1], GitSuffix);
        assert path == parts[0] + "/" + Join(parts[1..], '/');
        assert HasPrefix(Join(parts[1..], '/'), parts[1]);
        assert HasPrefix(parts[1], name);
        (res.(author := parts[0], repoName := name), None)
  }

  /** What `git remote get-url origin` prints for a GitHub clone: the https
      URL, with or without ".git", followed by any trailing whitespace. */
  function GitHubRemote(author: string, name: string, dotGit: bool, trailing: string): string {
    GhPrefix + author + "/" + name + (if dotGit then GitSuffix else "") + trailing
  }

  /** Trailing whitespace after a remote that does not end in whitespace is
      exactly what the trim removes. */
  lemma RemoteDropsTrailing(url: string, trailing: string)
    requires url != [] && url[|url| - 1] !in Cutset
    requires forall i :: 0 <= i < |trailing| ==> trailing[i] in Cutset
    ensures Remote(url + trailing) == url
  {
    TrimRightTail(url, trailing, Cutset);
  }

  /** Removing a prefix that is there leaves the rest. */
  lemma TrimPrefixOf(prefix: string, rest: string)
    ensures TrimPrefix(prefix + rest, prefix) == rest
  {
    assert (prefix + rest)[..|prefix|] == prefix;
  }

  /** A successful git run whose trimmed output is a GitHub URL gives the
      first segment of its path as the author and the second, without one
      ".git", as the name, however many segments follow. */
  lemma FromGitOfOwnerPath(dir: string, out: string, author: string, last: string, tail: string)
    requires '/' !in author && '/' !in last
    requires tail == "" || tail[0] == '/'
    requires Remote(out) == GhPrefix + (author + "/" + last + tail)
    ensures GitOutputParses(out, true)
    ensures FromGit(dir, out, true) == (RepoInfo(author, TrimSuffix(last, GitSuffix), dir), None)
  {
    var path := author + "/" + (last + tail);
    assert path == author + "/" + last + tail;
    TrimPrefixOf(GhPrefix, path);
    assert (GhPrefix + path)[..|GhPrefix|] == GhPrefix;
    assert path[|author|] == '/';
    SplitFirstTwo(author, last, tail, '/');
  }

  /** Author and name come back from a GitHub remote, with the ".git" and the
      trailing whitespace removed. */
  lemma FromGitRoundTrip(dir: string, author: string, name: string, dotGit: bool, trailing: string)
    requires '/' !in author && '/' !in name
    requires !HasSuffix(name, GitSuffix)
    requires name == "" || name[|name| - 1] !in Cutset
    requires forall i :: 0 <= i < |trailing| ==> trailing[i] in Cutset
    ensures GitOutputParses(GitHubRemote(author, name, dotGit, trailing), true)
    ensures FromGit(dir, GitHubRemote(author, name, dotGit, trailing), true) == (RepoInfo(author, name, dir), None)
  {
    var last := name + (if dotGit then GitSuffix else "");
    var url := GhPrefix + (author + "/" + last);
    assert GitHubRemote(author, name, dotGit, trailing) == url + trailing;
    if last == [] {
      assert url[|url| - 1] == '/';
    } else {
      assert url[|url| - 1] == last[|last| - 1];
    }
    RemoteDropsTrailing(url, trailing);
    assert '/' !in GitSuffix;
    FromGitOfOwnerPath(dir, url + trailing, author, last, "");
    assert author + "/" + last + "" == author + "/" + last;
    if dotGit {
      TrimSuffixOnce(name, GitSuffix);
    } else {
      assert last == name;
    }
  }

  /** What git prints for this repository's own remote:
      "https://github.com/parro-it/templatedir.git" and a line end. */
  const OwnRemote := GitHubRemote("parro-it", "templatedir", true, "\n")

  /** The repository's own remote gives its author and name. */
  lemma FromGitExample(dir: string)
    ensures GitOutputParses(OwnRemote, true)
    ensures FromGit(dir, OwnRemote, true) == (RepoInfo("parro-it", "templatedir", dir), None)
  {
    var name := "templatedir";
    assert name[|name| - 4..] != GitSuffix;
    FromGitRoundTrip(dir, "parro-it", name, true, "\n");
  }

  /** getGHInfos: without a token there is nothing to fetch and no error;
      with one, the answer of the GitHub API (given) is the result. */
  function GHInfos(token: string, api: Result<GhInfo, Error>): (r: Result<GhInfo, Error>)
    ensures token == "" ==> r == Success(GhInfo(Nil, Nil))
    ensures token != "" ==> r == api
  {
    if token == "" then Success(GhInfo(Nil, Nil)) else api
  }

  // ---------------------------------------------------------------------
  // DefaultArgs

  /** The inputs of DefaultArgs that are not the environment list. */
  datatype Inputs = Inputs(
    ghRepo: string,          // GITHUB_REPOSITORY
    ghWorkspace: string,     // GITHUB_WORKSPACE
    cwd: Result<string, Error>,   // os.Getwd
    gitOut: string,          // combined output of `git remote get-url origin`
    gitOk: bool,             // whether that command succeeded
    token: string,           // GITHUB_TOKEN
    api: Result<GhInfo, Error>)   // the GitHub API's answer for author and repository

  /** The inputs on which finding the identity does not panic: a repository
      variable with a '/', and git's output is only looked at when that
      variable is empty and the working directory is known. */
  predicate IdentityDefined(inp: Inputs) {
    && (inp.ghRepo == "" || '/' in inp.ghRepo)
    && (inp.ghRepo == "" && inp.cwd.Success? ==> GitOutputParses(inp.gitOut, inp.gitOk))
  }

  /** The inputs on which DefaultArgs does not panic. */
  predicate Defined(env: seq<string>, inp: Inputs) {
    EnvWellFormed(env) && IdentityDefined(inp)
  }

  /** The repository's identity: from the GitHub Actions environment when it
      names one, otherwise from git in the working directory. */
  function ResolveInfo(inp: Inputs): (r: Result<RepoInfo, Error>)
    requires IdentityDefined(inp)
    ensures inp.ghRepo != "" ==> r == Success(FromGHActionEnv(inp.ghRepo, inp.ghWorkspace).0)
    ensures inp.ghRepo == "" && inp.cwd.Failure? ==> r == Failure(inp.cwd.error)
    ensures inp.ghRepo == "" && inp.cwd.Success? ==>
      var g := FromGit(inp.cwd.value, inp.gitOut, inp.gitOk);
      (r.Failure? <==> g.1.Some?) && (r.Failure? ==> Some(r.error) == g.1) && (r.Success? ==> r.value == g.0)
    ensures inp.ghRepo == "" && inp.cwd.Success? ==> r.Success? ==> r.value.root == inp.cwd.value
  {
    var (info, found) := FromGHActionEnv(inp.ghRepo, inp.ghWorkspace);
    if found then Success(info)
    else if inp.cwd.Failure? then Failure(inp.cwd.error)
    else
      var (gitInfo, err) := FromGit(inp.cwd.value, inp.gitOut, inp.gitOk);
      if err.Some? then Failure(err.value) else Success(gitInfo)
  }

  /** The map DefaultArgs returns, or its error. */
  function DefaultArgsSpec(env: seq<string>, inp: Inputs): Result<map<string, Value>, Error>
    requires Defined(env, inp)
  {
    match ResolveInfo(inp)
    case Failure(e) => Failure(e)
    case Success(info) =>
      var m := EnvOverlay(map[], env)
        ["Author" := Text(info.author)]
        ["RepoName" := Text(info.repoName)]
        ["Root" := Text(info.root)];
      match GHInfos(inp.token, inp.api)
      case Failure(e) => Failure(e)
      case Success(gh) => Success(m["User" := gh.user]["Repo" := gh.repo])
  }

  /** DefaultArgs: load the environment, find the repository's identity, store
      it over the environment's keys, then store the GitHub records. */
  method DefaultArgs(env: seq<string>, inp: Inputs) returns (r: Result<map<string, Value>, Error>)
    requires Defined(env, inp)
    ensures r == DefaultArgsSpec(env, inp)
  {
    var args := new Args();
    args.InitFromOSEnv(env);
    var fromEnv := FromGHActionEnv(inp.ghRepo, inp.ghWorkspace);
    var info, ok := fromEnv.0, fromEnv.1;
    if !ok {
      if inp.cwd.Failure? {
        return Failure(inp.cwd.error);
      }
      var fromGit := FromGit(inp.cwd.value, inp.gitOut, inp.gitOk);
      var err;
      info, err := fromGit.0, fromGit.1;
      if err.Some? {
        return Failure(err.value);
      }
    }
    args.Set("Author", Text(info.author));
    args.Set("RepoName", Text(info.repoName));
    args.Set("Root", Text(info.root));
    var gh := GHInfos(inp.token, inp.api);
    if gh.Failure? {
      return Failure(gh.error);
    }
    args.Set("User", gh.value.user);
    args.Set("Repo", gh.value.repo);
    r := Success(args.m);
  }

  /** The keys DefaultArgs sets itself. */
  const OwnKeys: set<string> := {"Author", "RepoName", "Root", "User", "Repo"}

  /** DefaultArgs fails exactly when the identity cannot be found or, with a
      token, the GitHub API fails. */
  lemma DefaultArgsFailsIff(env: seq<string>, inp: Inputs)
    requires Defined(env, inp)
    ensures DefaultArgsSpec(env, inp).Failure? <==>
      ResolveInfo(inp).Failure? || (inp.token != "" && inp.api.Failure?)
  {
  }

  /** On success the map has exactly the keys DefaultArgs sets itself and
      those the environment's entries name. */
  lemma DefaultArgsKeys(env: seq<string>, inp: Inputs)
    requires Defined(env, inp)
    requires DefaultArgsSpec(env, inp).Success?
    ensures DefaultArgsSpec(env, inp).value.Keys == OwnKeys + (set k | k in Keys(env))
  {
    var m := DefaultArgsSpec(env, inp).value;
    forall key
      ensures key in m <==> key in OwnKeys || key in Keys(env)
    {
      EnvOverlayKeys(map[], env, key);
    }
  }

  /** On success, the identity keys hold the repository's identity whatever
      the environment says, and the GitHub records are nil without a token. */
  lemma DefaultArgsIdentity(env: seq<string>, inp: Inputs)
    requires Defined(env, inp)
    requires DefaultArgsSpec(env, inp).Success?
    ensures var m := DefaultArgsSpec(env, inp).value;
            var info := ResolveInfo(inp).value;
      && m["Author"] == Text(info.author)
      && m["RepoName"] == Text(info.repoName)
      && m["Root"] == Text(info.root)
      && (inp.token == "" ==> m["User"] == Nil && m["Repo"] == Nil)
  {
    var info := ResolveInfo(inp).value;
    var gh := GHInfos(inp.token, inp.api).value;
    assert DefaultArgsSpec(env, inp).value ==
      EnvOverlay(map[], env)["Author" := Text(info.author)]["RepoName" := Text(info.repoName)]
        ["Root" := Text(info.root)]["User" := gh.user]["Repo" := gh.repo];
  }

  /** On success, every key DefaultArgs does not set itself is in the map
      exactly when some environment entry names it. */
  lemma DefaultArgsEnvKeys(env: seq<string>, inp: Inputs, key: string)
    requires Defined(env, inp)
    requires DefaultArgsSpec(env, inp).Success?
    requires key !in OwnKeys
    ensures key in DefaultArgsSpec(env, inp).value <==> key in Keys(env)
  {
    EnvOverlayKeys(map[], env, key);
  }

  /** On success, such a key holds the value of the last entry naming it. */
  lemma DefaultArgsEnvValue(env: seq<string>, inp: Inputs, i: int)
    requires Defined(env, inp)
    requires DefaultArgsSpec(env, inp).Success?
    requires 0 <= i < |env| && EntryKey(env[i]) !in OwnKeys
    requires forall j :: i < j < |env| ==> EntryKey(env[j]) != EntryKey(env[i])
    ensures EntryKey(env[i]) in DefaultArgsSpec(env, inp).value
    ensures DefaultArgsSpec(env, inp).value[EntryKey(env[i])] == Text(EntryValue(env[i]))
  {
    EnvOverlayLastWins(map[], env, i);
  }

  /** In a GitHub Actions run the identity comes from its variables, and the
      working directory and git are not consulted. */
  lemma ActionsEnvWins(inp: Inputs, author: string, name: string)
    requires '/' !in author
    requires inp.ghRepo == author + "/" + name
    requires IdentityDefined(inp)
    ensures ResolveInfo(inp) == Success(RepoInfo(author, name, inp.ghWorkspace))
  {
    FromGHActionEnvRoundTrip(author, name, inp.ghWorkspace);
  }

  /** In a local clone outside GitHub Actions the identity comes from the
      `origin` remote, rooted at the working directory. */
  lemma GitRemoteWins(inp: Inputs, author: string, name: string, dotGit: bool, trailing: string)
    requires '/' !in author && '/' !in name
    requires !HasSuffix(name, GitSuffix)
    requires name == "" || name[|name| - 1] !in Cutset
    requires forall i :: 0 <= i < |trailing| ==> trailing[i] in Cutset
    requires inp.ghRepo == "" && inp.cwd.Success? && inp.gitOk
    requires inp.gitOut == GitHubRemote(author, name, dotGit, trailing)
    ensures IdentityDefined(inp)
    ensures ResolveInfo(inp) == Success(RepoInfo(author, name, inp.cwd.value))
  {
    FromGitRoundTrip(inp.cwd.value, author, name, dotGit, trailing);
  }
}
