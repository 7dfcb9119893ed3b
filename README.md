# ArtX Tools nodes, modelled in Dafny

This project models the two host plugin nodes of ComfyUI-ArtX-Tools, both defined in `nodes.py`, and proves properties about them.

- **ModelsListNode.list_models** lists the host's models directory. It keeps the entries that are directories, sorts them ascending and reports them with their count. A missing models directory, an empty result and a listing error each get their own outcome.
- **GitHubInstallerNode.install_from_github** takes a GitHub URL and an install type:
  1. It checks that the URL starts with `https://github.com/`.
  2. It removes every copy of that prefix, splits the rest on `/` and takes piece 1 as the repository name.
  3. It picks the destination: `<base>/custom_nodes/<name>` for `custom_nodes`, `<models>/<name>` for any other type.
  4. It refuses a destination that already exists.
  5. It requests `git clone <url> <destination>` with a 300-second limit and maps how that request ends to an outcome. When `git` is not installed no process starts and the filesystem stays as it was.
  6. After a successful clone it reports the first dependency file and the first readme it finds.

The filesystem is a value `FileSystem.Snapshot`. It stands in for `os.path.exists`, `os.path.isdir` and `os.listdir`. The host's `folder_paths.base_path` and `folder_paths.models_dir` are parameters. The clone is not run. Its result is an input `CloneRun`, which holds how the process ended (exit code and standard error, timeout, `git` not found, another error) and the filesystem it left behind; when `git` is not found, that filesystem is ignored. Each node produces a tagged outcome in place of its display text.

Modules, one per concern:

- `Wrappers`: Option and Result.
- `PyStrings`: Python's `str.startswith`, `str.replace` and `str.split`.
- `PosixPath`: `os.path.join` and `os.path.basename`.
- `FileSystem`: the snapshot.
- `TextOrder`: Python's string ordering and sortedness.
- `Sorting`: `list.sort()` as an in-place insertion sort on an array.
- `ModelsList`: the listing node.
- `GitHubInstaller`: the installer node.

Three behaviours of the code are worth stating outright, because the model keeps them:

- The listing node has no path argument. It lists only `folder_paths.models_dir` and reports only directories, with no list of files. It does not separately reject a path that exists but is not a directory: `os.listdir` raises there, and the catch-all turns that into the error outcome.
- The installer rejects a URL only when the split gives fewer than two pieces. Empty pieces are accepted, so `https://github.com/o/` yields the empty repository name.
- Every copy of the prefix is removed, not only the leading one.

## Model

| member | source | states |
|---|---|---|
| `PyStrings.Split` | nodes.py:84 | `str.split` on a non-empty separator always yields at least one piece |
| `PyStrings.ReplaceIsSplitThenJoin` | nodes.py:84 | `s.replace(a, b)` equals `b.join(s.split(a))`, so replacing and splitting agree on where the prefix occurs |
| `PyStrings.ReplaceBySelf` | nodes.py:84 | replacing a pattern by itself changes nothing |
| `PyStrings.SplitThenJoinRoundTrip` | nodes.py:84 | joining the pieces of a split with the same separator gives back the original string |
| `PyStrings.ReplaceWithoutOccurrence` | nodes.py:84 | a string in which the pattern does not occur is returned unchanged by `replace` |
| `PyStrings.ReplaceLeading` | nodes.py:84 | an occurrence at the start is replaced, and scanning resumes after it |
| `PyStrings.ReplaceLeadingChar` | nodes.py:84 | a leading character that cannot start the pattern is kept, and scanning moves past it |
| `PyStrings.ReplaceSkipsUnmatched` | nodes.py:84 | text at which no match of the pattern starts is copied as is, and the rest is scanned on its own |
| `PyStrings.ReplaceKeepsText` | nodes.py:84 | text without the pattern's first character is copied as is, and the rest is scanned on its own |
| `PyStrings.SplitPiecesLackSeparator` | nodes.py:84 | no piece of a split on `/` contains `/` |
| `PyStrings.SplitHasTwoPiecesIff` | nodes.py:84-86 | a split on a character has at least two pieces if and only if the character occurs |
| `PyStrings.SplitWithoutSeparator` | nodes.py:84 | a string without the separator splits into itself alone |
| `PyStrings.SplitFirstPiece` | nodes.py:84 | the first piece is the text before the first separator, and the rest splits on its own |
| `PyStrings.SplitShape` | nodes.py:84-89 | with two or more pieces, the string reads piece 0, `/`, piece 1, and then ends or continues with `/` |
| `PosixPath.Basename` | nodes.py:122 | the base name is the suffix of the path after its last `/`: it has no `/`, and it is either the whole path or preceded by a `/` |
| `PosixPath.BasenameOfJoin` | nodes.py:116-122 | the base name of `join(dir, name)` is `name` when `name` has no `/`, so the probes report the file names themselves |
| `PosixPath.JoinWithSeparator` | nodes.py:97 | joining onto a directory without a trailing `/` inserts exactly one `/`; an empty name leaves a trailing `/` |
| `PosixPath.JoinExtendsDirectory` | nodes.py:97 | a relative name is joined below its directory: the directory is a prefix of the result |
| `FileSystem.ListDir` | nodes.py:34 | a listing exists only for a path that is a directory |
| `TextOrder.LessEqTotal` | nodes.py:39 | any two strings are comparable |
| `TextOrder.LessEqAntisymmetric` | nodes.py:39 | strings that are each at most the other are equal |
| `TextOrder.LessEqTransitive` | nodes.py:39 | the string order is transitive |
| `TextOrder.SortedPermutationsShareHead` | nodes.py:39 | two sorted arrangements of one multiset start with the same element |
| `TextOrder.DropHead` | nodes.py:39 | removing the first element keeps a sequence sorted and removes one copy from its multiset |
| `TextOrder.SortedPermutationUnique` | nodes.py:39 | two sorted arrangements of the same strings are identical, so the sorted listing is determined by its contents |
| `Sorting.SortInPlace` | nodes.py:39 | `directories.sort()`: afterwards the array is sorted and is a permutation of what it held before |
| `ModelsList.DirectoryEntries` | nodes.py:33-37 | an entry is kept if and only if it is in the listing and its joined path is a directory |
| `ModelsList.ListModels` | nodes.py:24-52 | missing models directory gives ModelsDirMissing; an unreadable one gives ListingFailed; otherwise the result is NoDirectories exactly when no entry is a directory, else Listed with the directory entries sorted and permuted, and a count equal to their number |
| `ModelsList.ExampleDirectoryEntries` | nodes.py:33-37 | a listing `b`, `z.txt`, `a`, `y.txt`, where only `b` and `a` are directories, keeps `b` then `a` |
| `ModelsList.ExampleListing` | nodes.py:33-47 | for that directory the only listing ListModels may return is `a`, `b` |
| `GitHubInstaller.ParseGitHubUrl` | nodes.py:80-89 | NotGitHub exactly when the prefix is missing; Malformed exactly when the prefix is there but no `/` is left after removing it; an accepted owner and name contain no `/` |
| `GitHubInstaller.ParseExtractsSecondSegment` | nodes.py:84-89 | `https://github.com/<owner>/<name>` with nothing after it, or `/...` after it, yields exactly that owner and name when the remainder holds no second copy of the prefix |
| `GitHubInstaller.PrefixThenRemainder` | nodes.py:80-84 | a URL made of the prefix and a remainder without the prefix passes the check and leaves exactly that remainder |
| `GitHubInstaller.OwnerAndNamePieces` | nodes.py:84-89 | `<owner>/<name>` followed by nothing or by `/...` splits with the owner as piece 0 and the name as piece 1 |
| `GitHubInstaller.ParseIsSound` | nodes.py:80-89 | an accepted URL starts with the prefix, and what remains reads `<owner>/<name>` followed by nothing or by `/` |
| `GitHubInstaller.RootUrlIsMalformed` | nodes.py:84-86 | `https://github.com/` is rejected as malformed |
| `GitHubInstaller.OwnerOnlyUrlIsMalformed` | nodes.py:84-86 | `https://github.com/owner` is rejected as malformed |
| `GitHubInstaller.EmptyNameIsAccepted` | nodes.py:84-89 | `https://github.com/o/` is accepted with the empty repository name |
| `GitHubInstaller.DotDotNameIsAccepted` | nodes.py:84-89 | `https://github.com/o/..` is accepted with the name `..` |
| `GitHubInstaller.LaterSegmentsAreIgnored` | nodes.py:84-89 | `https://github.com/o/r/tree/main` names repository `r` |
| `GitHubInstaller.RepeatedPrefixIsRemoved` | nodes.py:84 | for every owner and name without `/`, a second copy of the prefix after `<owner>/` is removed too, so the piece after it becomes the name |
| `GitHubInstaller.RepeatedPrefixExample` | nodes.py:84-89 | `https://github.com/o/https://github.com/x` names repository `x` |
| `GitHubInstaller.StrippingOnlyTheLeadingPrefixDiffers` | nodes.py:84 | removing only the leading prefix from that URL would have given the name `https:` |
| `GitHubInstaller.DestinationLayout` | nodes.py:92-97 | below roots without a trailing `/`: `custom_nodes` gives `<base>/custom_nodes/<name>`, any other type gives `<models>/<name>`; the last component of the destination is the name |
| `GitHubInstaller.FirstExisting` | nodes.py:120-124 | reports nothing if and only if no candidate exists; otherwise reports an existing candidate |
| `GitHubInstaller.FirstExistingIsFirst` | nodes.py:120-124 | the candidate reported is the one at the smallest index that exists: first match wins |
| `GitHubInstaller.ProbeFirst` | nodes.py:120-124 | the loop that stops at the first existing path with `break` returns exactly the first existing candidate |
| `GitHubInstaller.ProbeReportsFirstName` | nodes.py:120-136 | a probe reports the base name of the first existing candidate, or nothing |
| `GitHubInstaller.DependencyProbeOrder` | nodes.py:115-124 | `requirements.txt` wins over `pyproject.toml`; with neither present, no dependency file is reported |
| `GitHubInstaller.ReadmeProbeOrder` | nodes.py:127-136 | the readme is the first present of `README.md`, `readme.md`, `README.txt`, or none |
| `GitHubInstaller.Install` | nodes.py:77-151 | a missing prefix gives NotGitHubUrl and a short split gives MalformedUrl, both if and only if; then no clone is requested and the filesystem is unchanged; a `git clone` is requested exactly when the outcome is not one of the two URL errors or AlreadyExists; a missing `git` leaves the filesystem unchanged; a clone failure always carries a non-empty error text |
| `GitHubInstaller.InstallFromGitHub` | nodes.py:77-151 | the step-by-step installer, with its probe loops, yields exactly the report `Install` specifies |
| `GitHubInstaller.NoInvocationIgnoresClone` | nodes.py:80-101 | when no clone is requested, the clone's result plays no part in the report |
| `GitHubInstaller.ExistingDestinationIsRefused` | nodes.py:99-101 | an existing destination gives AlreadyExists with that path, requests nothing and leaves the filesystem as it was |
| `GitHubInstaller.RefusalIsStable` | nodes.py:99-101 | repeating a refused request gives the same report again |
| `GitHubInstaller.FreshDestinationIsCloned` | nodes.py:104-109 | a destination that does not exist leads to exactly one `git clone <url> <destination>` with a 300-second limit, and the filesystem afterwards is the one the clone left, or the old one when `git` is not found |
| `GitHubInstaller.CloneResultMapping` | nodes.py:109-149 | exit code 0 gives Installed with the probed dependency file and readme; a non-zero exit gives CloneFailed with stderr, or `未知错误` when stderr is empty; a timeout, a missing `git` and any other error each give their own outcome |
| `GitHubInstaller.RetryAfterCloneIsRefused` | nodes.py:99-109 | when a clone, even a timed-out one, leaves the destination behind, a repeated request is refused with AlreadyExists |
| `GitHubInstaller.MissingGitLeavesRetryOpen` | nodes.py:106-147 | when `git` is missing the filesystem is unchanged, so a repeated request behaves exactly like the first |

## Left out

- The `git clone` child process (nodes.py:108-109) is not run. How it ends and the filesystem it leaves are an input (`CloneRun`), so the model does not say what `git` writes. When `git` is not installed, `subprocess.run` raises before any process starts; the model then keeps the old filesystem and ignores the snapshot in `CloneRun`.
- Real filesystem calls (`os.path.exists`, `os.path.isdir`, `os.listdir`) are queries on a snapshot. Paths are plain strings. The snapshot decides whether `base/` and `base` both exist, and this matters for the empty repository name, whose destination ends in `/`. Symbolic links, permissions beyond "listing unavailable", and the order of `os.listdir` are whatever the snapshot says.
- The module `folder_paths` is not modelled. `base_path` and `models_dir` are parameters.
- The display text is not modelled: the Chinese and emoji messages, the `result +=` lines, the "restart" hint and the `- name` formatting. Each node returns a tagged outcome with the values that text would show (paths, file names, error text, count).
- The `INPUT_TYPES`, `RETURN_TYPES`, `FUNCTION` and `CATEGORY` metadata (nodes.py:13-22, 58-75) and the registration maps (nodes.py:158-166) are not modelled. Neither is `__init__.py`, which only re-exports them.
- The outer `except Exception` of `install_from_github` (nodes.py:153-154) cannot be reached in the model: the inputs are strings and the path operations do not fail. The inner catch-all (nodes.py:148-149) is the `Raised` clone result. The listing's catch-all (nodes.py:51-52) is `ListingFailed`, reached when `os.listdir` cannot read the models directory. Exception message texts are not modelled for the listing.
- `PyStrings.Replace` and `PyStrings.Split`: only a non-empty pattern is modelled, which is how the installer calls them. Python's behaviour for an empty pattern is left out.
- `TextOrder.LessEq` compares Unicode scalar values. Lone surrogate code points, which a Python `str` can hold, are not modelled.
- Concurrency is not modelled. The race between the existence check and the clone lies outside a sequential model.
