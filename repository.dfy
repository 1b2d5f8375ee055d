/**
 * The repository handle of libwyag: a worktree path, the `.git` metadata directory
 * under it, and the configuration read from that directory. Opening a handle in
 * strict mode validates the metadata directory, the config file and the
 * repository format version, in that order; in force mode all three are skipped.
 */
module Repository {
  import opened Wrappers
  import opened Paths
  import opened IniConfig
  import opened IntLiteral

  /** The name of the metadata directory under the worktree. */
  const GitDirName: Segment := ".git"

  /**
   * The part of the filesystem the handle looks at: the paths that are
   * directories and the regular files holding a configuration, already parsed.
   */
  datatype FileSystem = FileSystem(dirs: set<Path>, files: map<Path, Config>)

  /** `os.path.isdir(p)`. */
  predicate IsDir(fs: FileSystem, p: Path) {
    p in fs.dirs
  }

  /** `os.path.exists(p)`: true of directories as well as of files. */
  predicate Exists(fs: FileSystem, p: Path) {
    p in fs.dirs || p in fs.files
  }

  /**
   * What `conf.read([p])` finds at `p`. configparser skips a path it cannot open
   * (a directory, say) without raising, so that contributes nothing.
   */
  function ReadConfig(fs: FileSystem, p: Path): Config {
    if p in fs.files then fs.files[p] else map[]
  }

  /** The exceptions raised while a handle is constructed. */
  datatype RepoError =
    | NotAGitRepository(path: Path)            // "Not a Git repository %s"
    | ConfigurationFileMissing                 // "Configuration file missing"
    | MissingFormatVersion(cause: LookupError) // conf.get raising NoSectionError / NoOptionError
    | InvalidFormatVersion(literal: string)    // int() raising ValueError
    | UnsupportedFormatVersion(version: int)   // "Unsupported repositoryformatversion %s"

  /** The metadata directory of the worktree `path`. */
  function GitDir(path: Path): Path {
    Join(path, [GitDirName])
  }

  /**
   * Whether `repo_file(self, "config")` gave a path that is truthy (not the empty
   * path) and that path exists.
   */
  predicate ConfigPresent(fs: FileSystem, cf: Option<Path>) {
    cf.Some? && cf.value != [] && Exists(fs, cf.value)
  }

  /** The configuration a handle holds once the optional read has happened. */
  function LoadedConfig(fs: FileSystem, cf: Option<Path>): Config {
    if ConfigPresent(fs, cf) then ReadConfig(fs, cf.value) else map[]
  }

  /** `int(conf.get("core", "repositoryformatversion"))`, or the exception it raises. */
  function FormatVersion(conf: Config): Result<int, RepoError> {
    match Get(conf, "core", "repositoryformatversion")
    case Failure(e) => Failure(MissingFormatVersion(e))
    case Success(s) =>
      match ParseInt(s)
      case None => Failure(InvalidFormatVersion(s))
      case Some(v) => Success(v)
  }

  /**
   * The outcome of `GitRepository(path, force)` on `fs`: the configuration the
   * handle ends up holding, or the exception raised. `cf` is what
   * `repo_file(self, "config")` returned (None when it gave no path).
   */
  function Init(fs: FileSystem, path: Path, force: bool, cf: Option<Path>): Result<Config, RepoError> {
    if !(force || IsDir(fs, GitDir(path))) then Failure(NotAGitRepository(path))
    else if !ConfigPresent(fs, cf) && !force then Failure(ConfigurationFileMissing)
    else if force then Success(LoadedConfig(fs, cf))
    else
      match FormatVersion(LoadedConfig(fs, cf))
      case Failure(e) => Failure(e)
      case Success(v) => if v != 0 then Failure(UnsupportedFormatVersion(v)) else Success(LoadedConfig(fs, cf))
  }

  class GitRepository {
    var worktree: Path
    var gitdir: Path
    var conf: Config

    /** The metadata directory is always derived from the worktree. */
    ghost predicate Valid()
      reads this
    {
      gitdir == GitDir(worktree)
    }

    /**
     * Sets `worktree` and `gitdir`, assigned before any check, and the empty parser
     * that is created only after the directory check. Creating it earlier cannot be
     * observed, because a failed construction returns no handle.
     */
    constructor (path: Path)
      ensures Valid()
      ensures worktree == path && gitdir == GitDir(path) && conf == map[]
    {
      worktree := path;
      gitdir := GitDir(path);
      conf := map[];
    }

    /** `self.conf.read([cf])`: merges the file's sections into the parser in place. */
    method Read(fs: FileSystem, cf: Path)
      requires Valid()
      modifies this`conf
      ensures Valid()
      ensures conf == Merge(old(conf), ReadConfig(fs, cf))
    {
      conf := Merge(conf, ReadConfig(fs, cf));
    }

    /**
     * `GitRepository(path, force)`: builds the handle and runs the strict checks
     * unless `force` is set. Fails exactly as `Init` says; on success the handle
     * holds `path`, its `.git` directory and the configuration `Init` gives.
     */
    static method Open(fs: FileSystem, path: Path, force: bool, cf: Option<Path>)
      returns (r: Result<GitRepository, RepoError>)
      ensures r.Failure? ==> Init(fs, path, force, cf) == Failure(r.error)
      ensures r.Success? ==> fresh(r.value) && r.value.Valid()
      ensures r.Success? ==> r.value.worktree == path && r.value.gitdir == GitDir(path)
      ensures r.Success? ==> Init(fs, path, force, cf) == Success(r.value.conf)
    {
      var repo := new GitRepository(path);
      if !(force || IsDir(fs, repo.gitdir)) {
        return Failure(NotAGitRepository(path));
      }
      if ConfigPresent(fs, cf) {
        repo.Read(fs, cf.value);
        MergeIntoEmpty(ReadConfig(fs, cf.value));
      } else if !force {
        return Failure(ConfigurationFileMissing);
      }
      if !force {
        var vers := FormatVersion(repo.conf);
        if vers.Failure? {
          return Failure(vers.error);
        }
        if vers.value != 0 {
          return Failure(UnsupportedFormatVersion(vers.value));
        }
      }
      return Success(repo);
    }
  }

  /** `repo_path(repo, *segs)`: `segs` placed under the handle's metadata directory. */
  function RepoPath(repo: GitRepository, segs: Path): (p: Path)
    reads repo
    ensures |p| == |repo.gitdir| + |segs|
    ensures p[..|repo.gitdir|] == repo.gitdir && p[|repo.gitdir|..] == segs
  {
    Join(repo.gitdir, segs)
  }

  /** With no segments, `repo_path` is the metadata directory itself. */
  lemma RepoPathNoSegments(repo: GitRepository)
    ensures RepoPath(repo, []) == repo.gitdir
  {
  }

  /** On a valid handle, `repo_path` is the worktree, then `.git`, then the segments. */
  lemma RepoPathUnderWorktree(repo: GitRepository, segs: Path)
    requires repo.Valid()
    ensures RepoPath(repo, segs) == repo.worktree + [GitDirName] + segs
  {
  }

  /** Different segment lists give different paths. */
  lemma RepoPathInjective(repo: GitRepository, a: Path, b: Path)
    ensures RepoPath(repo, a) == RepoPath(repo, b) <==> a == b
  {
  }

  /** Resolving in two steps is resolving the concatenated segments. */
  lemma RepoPathCompose(repo: GitRepository, a: Path, b: Path)
    ensures Join(RepoPath(repo, a), b) == RepoPath(repo, a + b)
  {
  }

  /** In strict mode a missing metadata directory fails first, whatever the config. */
  lemma StrictRejectsMissingGitDir(fs: FileSystem, path: Path, cf: Option<Path>)
    requires !IsDir(fs, GitDir(path))
    ensures Init(fs, path, false, cf) == Failure(NotAGitRepository(path))
  {
  }

  /**
   * In strict mode "Configuration file missing" is raised exactly when the
   * metadata directory is there but the config path is absent or does not exist.
   */
  lemma StrictConfigMissing(fs: FileSystem, path: Path, cf: Option<Path>)
    ensures Init(fs, path, false, cf) == Failure(ConfigurationFileMissing) <==>
      IsDir(fs, GitDir(path)) && !ConfigPresent(fs, cf)
  {
  }

  /** The format-version checks of strict mode, once directory and config file are there. */
  lemma StrictFormatVersion(fs: FileSystem, path: Path, cf: Option<Path>)
    requires IsDir(fs, GitDir(path)) && ConfigPresent(fs, cf)
    ensures var conf := ReadConfig(fs, cf.value);
      && ("core" !in conf ==>
            Init(fs, path, false, cf) == Failure(MissingFormatVersion(NoSection("core"))))
      && ("core" in conf && "repositoryformatversion" !in conf["core"] ==>
            Init(fs, path, false, cf) == Failure(MissingFormatVersion(NoOption("core", "repositoryformatversion"))))
      && ("core" in conf && "repositoryformatversion" in conf["core"] ==>
            var s := conf["core"]["repositoryformatversion"];
            && (ParseInt(s).None? ==> Init(fs, path, false, cf) == Failure(InvalidFormatVersion(s)))
            && (ParseInt(s).Some? && ParseInt(s).value != 0 ==>
                  Init(fs, path, false, cf) == Failure(UnsupportedFormatVersion(ParseInt(s).value)))
            && (ParseInt(s) == Some(0) ==> Init(fs, path, false, cf) == Success(conf)))
  {
  }

  /** In force mode nothing can fail, and the config is loaded only if it exists. */
  lemma ForceNeverFails(fs: FileSystem, path: Path, cf: Option<Path>)
    ensures Init(fs, path, true, cf) ==
      Success(if ConfigPresent(fs, cf) then ReadConfig(fs, cf.value) else map[])
  {
  }

  /** In either mode, a successful handle holds exactly what the config file held, or nothing. */
  lemma SuccessHoldsLoadedConfig(fs: FileSystem, path: Path, force: bool, cf: Option<Path>)
    requires Init(fs, path, force, cf).Success?
    ensures Init(fs, path, force, cf).value ==
      if ConfigPresent(fs, cf) then ReadConfig(fs, cf.value) else map[]
  {
  }

  /** Each failure means the checks before it passed: the checks run in a fixed order. */
  lemma ChecksRunInOrder(fs: FileSystem, path: Path, force: bool, cf: Option<Path>)
    requires Init(fs, path, force, cf).Failure?
    ensures !force
    ensures Init(fs, path, force, cf).error != NotAGitRepository(path) ==> IsDir(fs, GitDir(path))
    ensures (Init(fs, path, force, cf).error != NotAGitRepository(path) &&
             Init(fs, path, force, cf).error != ConfigurationFileMissing) ==> ConfigPresent(fs, cf)
  {
  }

  /**
   * Strict construction succeeds exactly when the metadata directory is a
   * directory, the config file exists, and `core.repositoryformatversion` is
   * present and spelled as an optional sign followed by one or more zeros.
   */
  lemma StrictSuccess(fs: FileSystem, path: Path, cf: Option<Path>)
    ensures Init(fs, path, false, cf).Success? <==>
      && IsDir(fs, GitDir(path))
      && ConfigPresent(fs, cf)
      && var conf := ReadConfig(fs, cf.value);
      && "core" in conf && "repositoryformatversion" in conf["core"]
      && var d := Unsigned(conf["core"]["repositoryformatversion"]);
      && d != [] && forall i :: 0 <= i < |d| ==> d[i] == '0'
  {
    if IsDir(fs, GitDir(path)) && ConfigPresent(fs, cf) {
      var conf := ReadConfig(fs, cf.value);
      if "core" in conf && "repositoryformatversion" in conf["core"] {
        ParseZero(conf["core"]["repositoryformatversion"]);
      }
    }
  }

  /** A repository whose version was written as `str(n)` opens strictly only when n is 0. */
  lemma StrictVersionWritten(fs: FileSystem, path: Path, cf: Option<Path>, n: nat)
    requires IsDir(fs, GitDir(path)) && ConfigPresent(fs, cf)
    requires Get(ReadConfig(fs, cf.value), "core", "repositoryformatversion") == Success(Decimal(n))
    ensures n == 0 ==> Init(fs, path, false, cf) == Success(ReadConfig(fs, cf.value))
    ensures n != 0 ==> Init(fs, path, false, cf) == Failure(UnsupportedFormatVersion(n))
  {
    ParseDecimal(n);
  }
}
