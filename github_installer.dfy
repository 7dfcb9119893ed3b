/**
 * The GitHubInstallerNode: validate a GitHub URL, pick the destination
 * directory, refuse an existing one, clone, and report which dependency
 * file and readme the clone brought along.
 *
 * The `git clone` child process is not run: its result arrives as a CloneRun,
 * which carries how the process ended and the filesystem it left behind.
 */
module GitHubInstaller {
  import opened Wrappers
  import opened PyStrings
  import opened PosixPath
  import opened FileSystem

  const GitHubPrefix: string := "https://github.com/"
  /** Shown in place of an empty standard-error text when `git` fails. */
  const UnknownError: string := "未知错误"
  const CloneTimeoutSeconds: nat := 300
  const CustomNodes: string := "custom_nodes"
  /** Probed in this order after a successful clone; the first that exists is reported. */
  const DependencyFiles: seq<string> := ["requirements.txt", "pyproject.toml"]
  const ReadmeFiles: seq<string> := ["README.md", "readme.md", "README.txt"]

  datatype UrlError = NotGitHub | Malformed

  datatype Repo = Repo(owner: string, name: string)

  /** How the `git clone` process ended. */
  datatype CloneStatus =
    | Exited(returnCode: int, stderr: string)
    | TimedOut
    | GitNotFound
    | Raised(message: string)

  /**
   * The clone's result: how it ended and the filesystem it left behind. When `git` is
   * not found no process ran, and `after` plays no part.
   */
  datatype CloneRun = CloneRun(status: CloneStatus, after: Snapshot)

  /** A child process the installer requests: its argument vector and its time limit. */
  datatype Invocation = Invocation(argv: seq<string>, timeoutSeconds: nat)

  datatype InstallOutcome =
    | NotGitHubUrl
    | MalformedUrl
    | AlreadyExists(path: string)
    | Installed(path: string, dependencyFile: Option<string>, readmeFile: Option<string>)
    | CloneFailed(error: string)
    | CloneTimedOut
    | GitMissing
    | CloneError(message: string)

  /** The outcome, the process the installer requested (if any), and the filesystem afterwards. */
  datatype InstallReport = InstallReport(outcome: InstallOutcome, invoked: Option<Invocation>, fs: Snapshot)

  /**
   * The URL must start with the GitHub prefix; every occurrence of the prefix is then
   * removed and the rest split on `/`; fewer than two pieces is malformed, otherwise
   * pieces 0 and 1 are the owner and the repository name, taken verbatim.
   */
  function ParseGitHubUrl(url: string): (r: Result<Repo, UrlError>)
    ensures r == Err(NotGitHub) <==> !StartsWith(url, GitHubPrefix)
    ensures r == Err(Malformed) <==> StartsWith(url, GitHubPrefix) && '/' !in Replace(url, GitHubPrefix, "")
    ensures r.Ok? ==> '/' !in r.value.owner && '/' !in r.value.name
  {
    if !StartsWith(url, GitHubPrefix) then Err(NotGitHub)
    else
      var rest := Replace(url, GitHubPrefix, "");
      var parts := Split(rest, "/");
      SplitHasTwoPiecesIff(rest, '/');
      SplitPiecesLackSeparator(rest, '/');
      if |parts| < 2 then Err(Malformed) else Ok(Repo(parts[0], parts[1]))
  }

  /** The directory a repository of this install type goes under. */
  function InstallRoot(installType: string, hostBase: string, modelsDir: string): string
  {
    if installType == CustomNodes then Join(hostBase, CustomNodes) else modelsDir
  }

  function Destination(installType: string, hostBase: string, modelsDir: string, name: string): string
  {
    Join(InstallRoot(installType, hostBase, modelsDir), name)
  }

  function GitClone(url: string, path: string): Invocation
  {
    Invocation(["git", "clone", url, path], CloneTimeoutSeconds)
  }

  /** The paths of `names` inside `dir`, in order. */
  function Candidates(dir: string, names: seq<string>): seq<string>
  {
    seq(|names|, k requires 0 <= k < |names| => Join(dir, names[k]))
  }

  /** The first of `paths` that exists, if any. */
  function FirstExisting(fs: Snapshot, paths: seq<string>): (found: Option<string>)
    ensures found.None? <==> forall k :: 0 <= k < |paths| ==> !Exists(fs, paths[k])
    ensures found.Some? ==> found.value in paths && Exists(fs, found.value)
    decreases |paths|
  {
    if paths == [] then None
    else if Exists(fs, paths[0]) then Some(paths[0])
    else FirstExisting(fs, paths[1..])
  }

  /** The probe reports the path at the smallest index that exists. */
  lemma {:induction false} FirstExistingIsFirst(fs: Snapshot, paths: seq<string>, i: nat)
    requires i < |paths| && Exists(fs, paths[i])
    requires forall k :: 0 <= k < i ==> !Exists(fs, paths[k])
    ensures FirstExisting(fs, paths) == Some(paths[i])
    decreases i
  {
    if i > 0 {
      FirstExistingIsFirst(fs, paths[1..], i - 1);
    }
  }

  /** The `for ... if os.path.exists(...): ... break` probe over candidate paths. */
  method ProbeFirst(fs: Snapshot, paths: seq<string>) returns (found: Option<string>)
    ensures found == FirstExisting(fs, paths)
  {
    found := None;
    var i := 0;
    while i < |paths|
      invariant 0 <= i <= |paths|
      invariant FirstExisting(fs, paths) == FirstExisting(fs, paths[i..])
    {
      if Exists(fs, paths[i]) {
        found := Some(paths[i]);
        break;
      }
      assert paths[i..][1..] == paths[i + 1..];
      i := i + 1;
    }
  }

  /** What the result text names for a probe: the base name of the path found. */
  function Reported(found: Option<string>): Option<string>
  {
    match found
    case None => None
    case Some(p) => Some(Basename(p))
  }

  /** How the end of the clone process maps to an outcome. */
  function CloneOutcome(path: string, clone: CloneRun): InstallOutcome
  {
    match clone.status
    case Exited(code, stderr) =>
      if code == 0 then
        Installed(path,
                  Reported(FirstExisting(clone.after, Candidates(path, DependencyFiles))),
                  Reported(FirstExisting(clone.after, Candidates(path, ReadmeFiles))))
      else
        CloneFailed(if stderr != "" then stderr else UnknownError)
    case TimedOut => CloneTimedOut
    case GitNotFound => GitMissing
    case Raised(message) => CloneError(message)
  }

  /** The filesystem after the clone: unchanged when `git` could not be started. */
  function AfterClone(fs: Snapshot, clone: CloneRun): Snapshot
  {
    if clone.status.GitNotFound? then fs else clone.after
  }

  /** The whole installer, as a function of the filesystem and the clone's result. */
  function Install(fs: Snapshot, hostBase: string, modelsDir: string, url: string, installType: string,
                   clone: CloneRun): (r: InstallReport)
    ensures r.outcome == NotGitHubUrl <==> !StartsWith(url, GitHubPrefix)
    ensures r.outcome == MalformedUrl <==> ParseGitHubUrl(url) == Err(Malformed)
    ensures ParseGitHubUrl(url).Err? ==> r.invoked == None && r.fs == fs
    ensures r.invoked == None <==> r.outcome.NotGitHubUrl? || r.outcome.MalformedUrl? || r.outcome.AlreadyExists?
    ensures r.invoked == None ==> r.fs == fs
    ensures r.outcome == GitMissing ==> r.fs == fs
    ensures r.outcome.CloneFailed? ==> r.outcome.error != []
  {
    match ParseGitHubUrl(url)
    case Err(NotGitHub) => InstallReport(NotGitHubUrl, None, fs)
    case Err(Malformed) => InstallReport(MalformedUrl, None, fs)
    case Ok(repo) =>
      var path := Destination(installType, hostBase, modelsDir, repo.name);
      if Exists(fs, path) then InstallReport(AlreadyExists(path), None, fs)
      else InstallReport(CloneOutcome(path, clone), Some(GitClone(url, path)), AfterClone(fs, clone))
  }

  /** `install_from_github`, step by step. */
  method InstallFromGitHub(fs: Snapshot, hostBase: string, modelsDir: string, url: string, installType: string,
                           clone: CloneRun) returns (report: InstallReport)
    ensures report == Install(fs, hostBase, modelsDir, url, installType, clone)
  {
    var parsed := ParseGitHubUrl(url);
    if parsed.Err? {
      var outcome := if parsed.error == NotGitHub then NotGitHubUrl else MalformedUrl;
      return InstallReport(outcome, None, fs);
    }
    var path := Destination(installType, hostBase, modelsDir, parsed.value.name);
    if Exists(fs, path) {
      return InstallReport(AlreadyExists(path), None, fs);
    }
    var outcome: InstallOutcome;
    var after := clone.after;
    match clone.status {
      case Exited(code, stderr) =>
        if code == 0 {
          var dependency := ProbeFirst(clone.after, Candidates(path, DependencyFiles));
          var readme := ProbeFirst(clone.after, Candidates(path, ReadmeFiles));
          outcome := Installed(path, Reported(dependency), Reported(readme));
        } else {
          outcome := CloneFailed(if stderr != "" then stderr else UnknownError);
        }
      case TimedOut =>
        outcome := CloneTimedOut;
      case GitNotFound =>
        outcome := GitMissing;
        after := fs;
      case Raised(message) =>
        outcome := CloneError(message);
    }
    report := InstallReport(outcome, Some(GitClone(url, path)), after);
  }

  // URL validation and segment extraction

  lemma ShortTextHasNoOccurrence(s: string, pat: string)
    requires |s| < |pat|
    ensures !Occurs(s, pat)
  {
  }

  /**
   * For `https://github.com/<owner>/<name>[/...]` whose remainder holds no second copy
   * of the prefix, the owner and the name are the two pieces between the slashes.
   */
  lemma ParseExtractsSecondSegment(owner: string, name: string, tail: string)
    requires '/' !in owner && '/' !in name
    requires tail == [] || tail[0] == '/'
    requires !Occurs(owner + "/" + name + tail, GitHubPrefix)
    ensures ParseGitHubUrl(GitHubPrefix + owner + "/" + name + tail) == Ok(Repo(owner, name))
  {
    var rest := owner + "/" + name + tail;
    var url := GitHubPrefix + owner + "/" + name + tail;
    assert url == GitHubPrefix + rest;
    PrefixThenRemainder(rest);
    OwnerAndNamePieces(owner, name, tail);
    var parts := Split(Replace(url, GitHubPrefix, ""), "/");
    assert parts == Split(rest, "/");
    assert parts[0] == owner && parts[1] == name;
  }

  lemma PrefixThenRemainder(rest: string)
    requires !Occurs(rest, GitHubPrefix)
    ensures StartsWith(GitHubPrefix + rest, GitHubPrefix)
    ensures Replace(GitHubPrefix + rest, GitHubPrefix, "") == rest
  {
    assert (GitHubPrefix + rest)[..|GitHubPrefix|] == GitHubPrefix;
    ReplaceLeading(GitHubPrefix, rest, "");
    ReplaceWithoutOccurrence(rest, GitHubPrefix, "");
  }

  lemma OwnerAndNamePieces(owner: string, name: string, tail: string)
    requires '/' !in owner && '/' !in name
    requires tail == [] || tail[0] == '/'
    ensures var parts := Split(owner + "/" + name + tail, "/");
            |parts| >= 2 && parts[0] == owner && parts[1] == name
  {
    assert owner + "/" + name + tail == owner + ['/'] + (name + tail);
    SplitFirstPiece(owner, '/', name + tail);
    if tail == [] {
      assert name + tail == name;
      SplitWithoutSeparator(name, '/');
    } else {
      assert name + tail == name + ['/'] + tail[1..];
      SplitFirstPiece(name, '/', tail[1..]);
    }
  }

  /**
   * Conversely, an accepted URL starts with the prefix, and once the prefix is removed
   * it reads `<owner>/<name>` followed by nothing or by another `/`.
   */
  lemma ParseIsSound(url: string, repo: Repo)
    requires ParseGitHubUrl(url) == Ok(repo)
    ensures StartsWith(url, GitHubPrefix)
    ensures var rest := Replace(url, GitHubPrefix, "");
            var n := |repo.owner| + 1 + |repo.name|;
            StartsWith(rest, repo.owner + "/" + repo.name) && (|rest| == n || (|rest| > n && rest[n] == '/'))
  {
    var rest := Replace(url, GitHubPrefix, "");
    assert Split(rest, "/")[0] == repo.owner && Split(rest, "/")[1] == repo.name;
    SplitShape(rest, '/');
  }

  /** The bare prefix leaves one empty piece and is malformed. */
  lemma RootUrlIsMalformed()
    ensures ParseGitHubUrl("https://github.com/") == Err(Malformed)
  {
    assert GitHubPrefix + "" == GitHubPrefix;
    ReplaceLeading(GitHubPrefix, "", "");
  }

  /** An owner without a repository leaves one piece and is malformed. */
  lemma OwnerOnlyUrlIsMalformed()
    ensures ParseGitHubUrl("https://github.com/owner") == Err(Malformed)
  {
    assert "https://github.com/owner" == GitHubPrefix + "owner";
    ReplaceLeading(GitHubPrefix, "owner", "");
  }

  /** A trailing slash after the owner gives an empty repository name, which is accepted. */
  lemma EmptyNameIsAccepted()
    ensures ParseGitHubUrl("https://github.com/o/") == Ok(Repo("o", ""))
  {
    ShortTextHasNoOccurrence("o" + "/" + "" + "", GitHubPrefix);
    ParseExtractsSecondSegment("o", "", "");
    assert GitHubPrefix + "o" + "/" + "" + "" == "https://github.com/o/";
  }

  /** `..` is taken as the repository name like any other text. */
  lemma DotDotNameIsAccepted()
    ensures ParseGitHubUrl("https://github.com/o/..") == Ok(Repo("o", ".."))
  {
    ShortTextHasNoOccurrence("o" + "/" + ".." + "", GitHubPrefix);
    ParseExtractsSecondSegment("o", "..", "");
    assert GitHubPrefix + "o" + "/" + ".." + "" == "https://github.com/o/..";
  }

  /** Pieces after the repository name (a branch path, say) are ignored. */
  lemma LaterSegmentsAreIgnored()
    ensures ParseGitHubUrl("https://github.com/o/r/tree/main") == Ok(Repo("o", "r"))
  {
    ShortTextHasNoOccurrence("o" + "/" + "r" + "/tree/main", GitHubPrefix);
    ParseExtractsSecondSegment("o", "r", "/tree/main");
    assert GitHubPrefix + "o" + "/" + "r" + "/tree/main" == "https://github.com/o/r/tree/main";
  }

  /**
   * A second copy of the prefix later in the URL is removed too, so the name is the
   * piece after it: `https://github.com/o/https://github.com/x` names repository `x`.
   */
  lemma RepeatedPrefixIsRemoved(owner: string, name: string)
    requires '/' !in owner && '/' !in name
    ensures ParseGitHubUrl(GitHubPrefix + owner + "/" + GitHubPrefix + name) == Ok(Repo(owner, name))
  {
    var p := GitHubPrefix;
    var url := p + owner + "/" + p + name;
    assert url == p + (owner + "/" + (p + name));
    assert url[..|p|] == p;
    ReplaceLeading(p, owner + "/" + (p + name), "");
    NoMatchBeforeSecondPrefix(owner, name);
    ReplaceSkipsUnmatched(owner + "/", p + name, p, "");
    ReplaceLeading(p, name, "");
    SlashFreeTextHasNoPrefix(name);
    ReplaceWithoutOccurrence(name, p, "");
    assert Replace(url, p, "") == owner + ['/'] + name;
    SplitFirstPiece(owner, '/', name);
    SplitWithoutSeparator(name, '/');
  }

  /**
   * In `<owner>/https://github.com/...` no copy of the prefix starts within `<owner>/`:
   * the prefix has `/` at its indices 6 and 7, and no two characters that far into the
   * text are both `/` there.
   */
  lemma NoMatchBeforeSecondPrefix(owner: string, name: string)
    requires '/' !in owner
    ensures forall i: nat :: i < |owner + "/"| ==> !OccursAt(owner + "/" + (GitHubPrefix + name), GitHubPrefix, i)
  {
    var p := GitHubPrefix;
    var text := owner + "/" + (p + name);
    forall i: nat | i < |owner + "/"|
      ensures !OccursAt(text, p, i)
    {
      if i + 6 < |owner| {
        assert text[i + 6] == owner[i + 6];
        assert owner[i + 6] in owner;
      } else if i + 6 == |owner| {
        assert text[i + 7] == p[0];
      } else {
        assert text[i + 6] == p[i + 6 - |owner| - 1];
      }
      assert text[i + 6] != '/' || text[i + 7] != '/';
      if i + |p| <= |text| {
        assert text[i..i + |p|][6] == text[i + 6] && text[i..i + |p|][7] == text[i + 7];
      }
    }
  }

  /** The prefix contains `/`, so text without `/` never contains it. */
  lemma SlashFreeTextHasNoPrefix(s: string)
    requires '/' !in s
    ensures !Occurs(s, GitHubPrefix)
  {
    forall i: nat | i <= |s|
      ensures !OccursAt(s, GitHubPrefix, i)
    {
      if i + |GitHubPrefix| <= |s| {
        assert s[i + 6] in s;
        assert s[i..i + |GitHubPrefix|][6] == s[i + 6];
      }
    }
  }

  lemma RepeatedPrefixExample()
    ensures ParseGitHubUrl(GitHubPrefix + "o" + "/" + GitHubPrefix + "x") == Ok(Repo("o", "x"))
  {
    RepeatedPrefixIsRemoved("o", "x");
  }

  /** Removing only the leading prefix from that URL would have produced `https:` as the name instead. */
  lemma StrippingOnlyTheLeadingPrefixDiffers()
    ensures var parts := Split((GitHubPrefix + "o/" + GitHubPrefix + "x")[|GitHubPrefix|..], "/");
            |parts| >= 2 && parts[1] == "https:"
  {
    var stripped := (GitHubPrefix + "o/" + GitHubPrefix + "x")[|GitHubPrefix|..];
    assert stripped == "o/" + GitHubPrefix + "x";
    assert stripped == "o" + ['/'] + ("https:" + ['/'] + "/github.com/x");
    SplitFirstPiece("o", '/', "https:" + ['/'] + "/github.com/x");
    SplitFirstPiece("https:", '/', "/github.com/x");
  }

  // Destination

  /**
   * Below a root without a trailing `/`, a node package goes to
   * `<base>/custom_nodes/<name>` and every other install type to `<models>/<name>`;
   * either way the destination's last component is the repository name.
   */
  lemma DestinationLayout(installType: string, hostBase: string, modelsDir: string, name: string)
    requires '/' !in name
    requires hostBase != [] && hostBase[|hostBase| - 1] != '/'
    requires modelsDir != [] && modelsDir[|modelsDir| - 1] != '/'
    ensures Destination(installType, hostBase, modelsDir, name)
         == if installType == "custom_nodes" then hostBase + "/custom_nodes/" + name else modelsDir + "/" + name
    ensures Basename(Destination(installType, hostBase, modelsDir, name)) == name
  {
    assert name == [] || name[0] != '/' by {
      if name != [] { assert name[0] in name; }
    }
    if installType == CustomNodes {
      JoinWithSeparator(hostBase, CustomNodes);
      var root := hostBase + "/" + CustomNodes;
      assert root[|root| - 1] == 's';
      JoinWithSeparator(root, name);
      assert root + "/" + name == hostBase + "/custom_nodes/" + name;
      BasenameOfJoin(root, name);
    } else {
      JoinWithSeparator(modelsDir, name);
      BasenameOfJoin(modelsDir, name);
    }
  }

  // Probes

  /** A probe reports the name of the first candidate that exists, or nothing. */
  lemma ProbeReportsFirstName(fs: Snapshot, dir: string, names: seq<string>, i: nat)
    requires forall k :: 0 <= k < |names| ==> '/' !in names[k]
    requires i <= |names|
    requires forall k :: 0 <= k < i ==> !Exists(fs, Join(dir, names[k]))
    requires i < |names| ==> Exists(fs, Join(dir, names[i]))
    ensures Reported(FirstExisting(fs, Candidates(dir, names))) == if i < |names| then Some(names[i]) else None
  {
    var paths := Candidates(dir, names);
    if i < |names| {
      FirstExistingIsFirst(fs, paths, i);
      BasenameOfJoin(dir, names[i]);
    }
  }

  /** `requirements.txt` wins over `pyproject.toml`; with neither, no dependency file is reported. */
  lemma DependencyProbeOrder(fs: Snapshot, path: string)
    ensures Reported(FirstExisting(fs, Candidates(path, DependencyFiles)))
         == if Exists(fs, Join(path, "requirements.txt")) then Some("requirements.txt")
            else if Exists(fs, Join(path, "pyproject.toml")) then Some("pyproject.toml")
            else None
  {
    var i := if Exists(fs, Join(path, "requirements.txt")) then 0
             else if Exists(fs, Join(path, "pyproject.toml")) then 1 else 2;
    ProbeReportsFirstName(fs, path, DependencyFiles, i);
  }

  /** The readme probe tries `README.md`, then `readme.md`, then `README.txt`. */
  lemma ReadmeProbeOrder(fs: Snapshot, path: string)
    ensures Reported(FirstExisting(fs, Candidates(path, ReadmeFiles)))
         == if Exists(fs, Join(path, "README.md")) then Some("README.md")
            else if Exists(fs, Join(path, "readme.md")) then Some("readme.md")
            else if Exists(fs, Join(path, "README.txt")) then Some("README.txt")
            else None
  {
    var i := if Exists(fs, Join(path, "README.md")) then 0
             else if Exists(fs, Join(path, "readme.md")) then 1
             else if Exists(fs, Join(path, "README.txt")) then 2 else 3;
    ProbeReportsFirstName(fs, path, ReadmeFiles, i);
  }

  // The installer as a whole

  /** When no process is requested, the clone's result plays no part in the report. */
  lemma NoInvocationIgnoresClone(fs: Snapshot, hostBase: string, modelsDir: string, url: string,
                                 installType: string, c1: CloneRun, c2: CloneRun)
    requires Install(fs, hostBase, modelsDir, url, installType, c1).invoked == None
    ensures Install(fs, hostBase, modelsDir, url, installType, c2)
         == Install(fs, hostBase, modelsDir, url, installType, c1)
  {
  }

  /** An existing destination is refused, nothing is requested and the filesystem is left alone. */
  lemma ExistingDestinationIsRefused(fs: Snapshot, hostBase: string, modelsDir: string, url: string,
                                     installType: string, clone: CloneRun, repo: Repo)
    requires ParseGitHubUrl(url) == Ok(repo)
    requires Exists(fs, Destination(installType, hostBase, modelsDir, repo.name))
    ensures Install(fs, hostBase, modelsDir, url, installType, clone)
         == InstallReport(AlreadyExists(Destination(installType, hostBase, modelsDir, repo.name)), None, fs)
  {
  }

  /** Repeating a refused request gives the same report again. */
  lemma RefusalIsStable(fs: Snapshot, hostBase: string, modelsDir: string, url: string,
                        installType: string, c1: CloneRun, c2: CloneRun)
    requires Install(fs, hostBase, modelsDir, url, installType, c1).outcome.AlreadyExists?
    ensures var r := Install(fs, hostBase, modelsDir, url, installType, c1);
            Install(r.fs, hostBase, modelsDir, url, installType, c2) == r
  {
  }

  /**
   * Without an existing destination, exactly one `git clone <url> <destination>` is requested
   * with a 300-second limit, and the report carries the filesystem it left, or the old one
   * when `git` could not be started.
   */
  lemma FreshDestinationIsCloned(fs: Snapshot, hostBase: string, modelsDir: string, url: string,
                                 installType: string, clone: CloneRun, repo: Repo)
    requires ParseGitHubUrl(url) == Ok(repo)
    requires !Exists(fs, Destination(installType, hostBase, modelsDir, repo.name))
    ensures var r := Install(fs, hostBase, modelsDir, url, installType, clone);
            r.invoked == Some(Invocation(["git", "clone", url, Destination(installType, hostBase, modelsDir, repo.name)], 300)) &&
            r.fs == (if clone.status == GitNotFound then fs else clone.after)
  {
  }

  /**
   * The end of the clone decides the outcome: a zero exit installs and reports the first
   * dependency file and readme found; a non-zero exit carries the error text, or the
   * unknown-error text when there is none; a time-out, a missing `git` and any other error
   * each have their own outcome.
   */
  lemma CloneResultMapping(fs: Snapshot, hostBase: string, modelsDir: string, url: string,
                           installType: string, clone: CloneRun, repo: Repo)
    requires ParseGitHubUrl(url) == Ok(repo)
    requires !Exists(fs, Destination(installType, hostBase, modelsDir, repo.name))
    ensures var path := Destination(installType, hostBase, modelsDir, repo.name);
            var dep := if Exists(clone.after, Join(path, "requirements.txt")) then Some("requirements.txt")
                       else if Exists(clone.after, Join(path, "pyproject.toml")) then Some("pyproject.toml")
                       else None;
            var readme := if Exists(clone.after, Join(path, "README.md")) then Some("README.md")
                          else if Exists(clone.after, Join(path, "readme.md")) then Some("readme.md")
                          else if Exists(clone.after, Join(path, "README.txt")) then Some("README.txt")
                          else None;
            Install(fs, hostBase, modelsDir, url, installType, clone).outcome ==
              match clone.status
              case Exited(code, stderr) =>
                if code == 0 then Installed(path, dep, readme)
                else if stderr == "" then CloneFailed("未知错误")
                else CloneFailed(stderr)
              case TimedOut => CloneTimedOut
              case GitNotFound => GitMissing
              case Raised(message) => CloneError(message)
  {
    var path := Destination(installType, hostBase, modelsDir, repo.name);
    DependencyProbeOrder(clone.after, path);
    ReadmeProbeOrder(clone.after, path);
  }

  /**
   * A clone that leaves the destination behind, even a timed-out or failed one,
   * makes a repeated request fail with AlreadyExists.
   */
  lemma RetryAfterCloneIsRefused(fs: Snapshot, hostBase: string, modelsDir: string, url: string,
                                 installType: string, c1: CloneRun, c2: CloneRun, repo: Repo)
    requires ParseGitHubUrl(url) == Ok(repo)
    requires Install(fs, hostBase, modelsDir, url, installType, c1).invoked.Some?
    requires Exists(Install(fs, hostBase, modelsDir, url, installType, c1).fs,
                    Destination(installType, hostBase, modelsDir, repo.name))
    ensures var r := Install(fs, hostBase, modelsDir, url, installType, c1);
            Install(r.fs, hostBase, modelsDir, url, installType, c2) ==
              InstallReport(AlreadyExists(Destination(installType, hostBase, modelsDir, repo.name)), None, r.fs)
  {
  }

  /**
   * When `git` is missing nothing changes on disk, so a repeated request behaves
   * exactly like the first one.
   */
  lemma MissingGitLeavesRetryOpen(fs: Snapshot, hostBase: string, modelsDir: string, url: string,
                                  installType: string, c1: CloneRun, c2: CloneRun)
    requires Install(fs, hostBase, modelsDir, url, installType, c1).outcome == GitMissing
    ensures var r := Install(fs, hostBase, modelsDir, url, installType, c1);
            r.fs == fs && Install(r.fs, hostBase, modelsDir, url, installType, c2)
                       == Install(fs, hostBase, modelsDir, url, installType, c2)
  {
  }
}
