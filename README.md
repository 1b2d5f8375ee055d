# wyag repository handle, in Dafny

A model of the repository handle of `libwyag.py`, the core of a small Git
re-implementation. A handle names a worktree, the `.git` metadata directory under
it and the configuration read from `.git/config`. Constructing a handle in strict
mode checks, in this order, that the metadata directory is a directory, that the
config file exists, and that `core.repositoryformatversion` is an integer equal
to 0. Each check raises its own exception. `force=True` skips all three checks. `repo_path` places path segments
under the metadata directory.

Layout:

- `wrappers.dfy` (`Wrappers`): `Option` and `Result`.
- `paths.dfy` (`Paths`): paths as sequences of segments (each non-empty and free of `/`), and `Join` for `os.path.join`.
- `ini_config.dfy` (`IniConfig`): a parsed configuration (section, then option, then
  string value), `Get` for `conf.get` with its two lookup errors, and `Merge` for what
  `conf.read` does to a parser.
- `int_literal.dfy` (`IntLiteral`): `ParseInt` for Python's `int()` on a string.
- `repository.dfy` (`Repository`): an abstract filesystem value, the error kinds, the
  specification function `Init` of the constructor, the class `GitRepository` whose
  static method `Open` runs the constructor's checks step by step, and `RepoPath`.

Filesystem observations (`os.path.isdir`, `os.path.exists`, reading the config file)
are queries on a `FileSystem` value: a set of directory paths and a map from file
path to the configuration that file parses to. `repo_file(self, "config")` is the
parameter `cf: Option<Path>` of `Open` and `Init` (the Dafny constructor takes only the
path; it sets `worktree` and `gitdir`, assigned before any check, and the empty parser
that is created only after the directory check; creating it earlier cannot be observed,
because a failed construction returns no handle): the function is not defined in
`libwyag.py`, so its own behaviour is not part of this model.

The format-version check has four distinct failures. A missing `core` section or
option raises configparser's `NoSectionError` or `NoOptionError`
(`MissingFormatVersion` here). A value `int()` rejects raises `ValueError`
(`InvalidFormatVersion`). Only an integer other than 0 raises "Unsupported
repositoryformatversion" (`UnsupportedFormatVersion`). `00`, `-0` and `+0` all
count as version 0.

## Model

| member | source | states |
|---|---|---|
| `Paths.Join` | libwyag.py:30 | joining segments one at a time yields the base followed by all the segments, in order |
| `Paths.JoinAssociative` | libwyag.py:50 | joining in two steps equals joining once with the concatenated segments |
| `IniConfig.Get` | libwyag.py:44 | `conf.get` succeeds exactly when section and option are present, returning the stored string; otherwise it fails with NoSection when the section is absent and NoOption when only the option is |
| `IniConfig.Merge` | libwyag.py:40 | `conf.read` keeps every section already held and adds the file's; an option from the file wins, every other held option is kept, and nothing else appears |
| `IniConfig.MergeIntoEmpty` | libwyag.py:36-40 | reading into the fresh parser created at line 36 leaves it holding exactly the file's configuration |
| `IntLiteral.ParseInt` | libwyag.py:44 | `int()` succeeds exactly when the text after an optional sign is a non-empty run of decimal digits |
| `IntLiteral.ParseDecimal` | libwyag.py:44 | `int(str(n)) == n` and `int("-" + str(n)) == -n` for every natural n |
| `IntLiteral.ParseZero` | libwyag.py:44-45 | `int(s) == 0` exactly when s is an optional sign followed by one or more zeros |
| `Repository.GitRepository.constructor` | libwyag.py:29-36 | the worktree is the given path, the gitdir is that path followed by `.git`, and the configuration starts empty |
| `Repository.GitRepository.Read` | libwyag.py:40 | the handle's configuration becomes its old one merged with what the file holds, in place |
| `Repository.GitRepository.Open` | libwyag.py:28-46 | construction fails with exactly the error `Init` gives; on success the fresh handle has the given worktree, the worktree's `.git` as gitdir, and the configuration `Init` gives |
| `Repository.RepoPath` | libwyag.py:49-50 | the result starts with the handle's gitdir and continues with the segments, in order; it reads only the handle, never the filesystem |
| `Repository.RepoPathNoSegments` | libwyag.py:49-50 | with no segments `repo_path` returns the gitdir itself |
| `Repository.RepoPathUnderWorktree` | libwyag.py:30 | on a valid handle `repo_path` is the worktree, then `.git`, then the segments |
| `Repository.RepoPathInjective` | libwyag.py:49-50 | for non-empty, separator-free segments, two segment lists resolve to the same path only if they are equal |
| `Repository.RepoPathCompose` | libwyag.py:49-50 | joining more segments onto a resolved path is resolving the concatenated segments |
| `Repository.StrictRejectsMissingGitDir` | libwyag.py:32-33 | in strict mode a gitdir that is not a directory fails with "Not a Git repository", whatever the config |
| `Repository.StrictConfigMissing` | libwyag.py:37-42 | in strict mode "Configuration file missing" occurs if and only if the gitdir is a directory and the config path is absent, empty or does not exist |
| `Repository.StrictFormatVersion` | libwyag.py:43-46 | with gitdir and config present, strict mode fails with NoSection, NoOption, ValueError or an unsupported version exactly as the stored value dictates, and succeeds with the file's config when it parses to 0 |
| `Repository.ForceNeverFails` | libwyag.py:32-43 | in force mode none of the three checks is made: for any filesystem the model can represent, construction succeeds, holding the file's config if it exists and an empty config otherwise |
| `Repository.SuccessHoldsLoadedConfig` | libwyag.py:36-42 | in either mode a successful handle holds the file's config when the file exists and an empty config otherwise |
| `Repository.ChecksRunInOrder` | libwyag.py:28-46 | only strict mode fails; any error other than "Not a Git repository" implies the gitdir check passed, and any version error implies the config file exists |
| `Repository.StrictSuccess` | libwyag.py:28-46 | strict construction succeeds if and only if the gitdir is a directory, the config file exists, and the stored format version is an optional sign followed by one or more zeros |
| `Repository.StrictVersionWritten` | libwyag.py:43-46 | with gitdir and config present, a version written as `str(n)` opens strictly when n is 0 and fails as unsupported version n otherwise |

## Left out

- `main`, `argparser` and `argsubparsers` (libwyag.py:14-17, 52-70): command-line dispatch to `cmd_*` functions that `libwyag.py` does not define. Their only behaviour of their own is printing "Bad command.".
- Real filesystem access: directories and config files are an abstract `FileSystem` value. File reading and INI parsing are not modelled; a config file is given already parsed.
- `repo_file`, `repo_dir` and repository creation are not part of this model. `repo_file` is not defined in `libwyag.py`, so its result is a parameter of the constructor.
- `Repository.ForceNeverFails`: does not cover a config file that configparser rejects (no leading section header, a duplicate section or option, a parse error, undecodable bytes). Such a file raises at libwyag.py:40 in either mode, and the `FileSystem` value, which holds only parsed configurations, cannot represent it; `Init` and `Open` likewise describe only files that parse.
- `Paths.Join`: a `Segment` is non-empty and contains no `/`, so the model cannot express the segments on which `os.path.join` does more than append: an empty segment (`join(g, "", "a") == join(g, "a")`), a segment holding a separator (`join(g, "a/b") == join(g, "a", "b")`) and an absolute segment, which restarts the path. Whether the worktree path is absolute or relative is not represented either.
- `Repository.RepoPathInjective`: holds only for the segments the model admits; with an empty segment, a segment holding `/` or an absolute segment, `repo_path` maps different segment lists to the same path.
- `IniConfig.Get`: does not model configparser's `DEFAULT` section fallback, interpolation, or the lower-casing of option names.
- `IntLiteral.ParseInt`: does not model the surrounding whitespace, the underscores between digits, or the non-ASCII digits that Python's `int()` also accepts.
- The exception messages' text: each error kind carries the value its message formats (the path, the version) rather than the string.
- The handle object that Python has already built when a check raises is not returned; on failure `Open` returns only the error. For the same reason `Open` creates the empty parser before the directory check rather than after it, an order no caller can observe.
