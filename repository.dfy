/**
 * The repository library: composing paths under the `.git` directory, making
 * sure directories exist, opening a repository and bootstrapping a new one.
 *
 * Every function of the library takes the filesystem it works on explicitly.
 * Each `unwrap` of a failed call becomes `Err(Panicked(cause))`; where the
 * state proves an `unwrap` cannot fail, its branch is `assert false`.
 */
module NickGit {
  import opened Results
  import opened FileSystem

  const GitDirName: Segment := ".git"
  const ConfigName: Segment := "config"
  const HeadName: Segment := "HEAD"
  const BranchesName: Segment := "branches"
  const ObjectsName: Segment := "objects"
  const RefsName: Segment := "refs"
  const TagsName: Segment := "tags"
  const HeadsName: Segment := "heads"

  /** The contents `repo_create` writes to `HEAD`. */
  const HeadRef: seq<byte> := AsciiBytes("ref: refs/heads/master\n")

  /**
   * The configuration. Parsing is not modelled: a configuration is either the
   * empty one or the text of the file it was loaded from.
   */
  datatype Config = Empty | Loaded(text: seq<byte>)

  datatype GitRepository = GitRepository(worktree: Path, gitdir: Path, conf: Config)

  //
  // repo_path
  //

  /** Joins the segments onto `gitdir`, one at a time and in order. */
  method RepoPath(gitdir: Path, paths: seq<Segment>) returns (finalPath: Path)
    ensures finalPath == gitdir + paths
    ensures paths == [] ==> finalPath == gitdir
  {
    finalPath := gitdir;
    for i := 0 to |paths|
      invariant finalPath == gitdir + paths[..i]
    {
      assert paths[..i + 1] == paths[..i] + [paths[i]];
      finalPath := finalPath + [paths[i]];
    }
    assert paths[..|paths|] == paths;
  }

  /** Distinct segment lists under the same directory name distinct paths. */
  lemma RepoPathInjective(gitdir: Path, a: seq<Segment>, b: seq<Segment>)
    requires gitdir + a == gitdir + b
    ensures a == b
  {
    assert a == (gitdir + a)[|gitdir|..];
    assert b == (gitdir + b)[|gitdir|..];
  }

  //
  // repo_dir and repo_file
  //

  /** What `repo_dir` returns for the directory `p` on filesystem `t`. */
  ghost function DirOutcome(t: Tree, p: Path, mkdir: bool): (r: Result<Option<Path>>) {
    if IsDirAt(t, p) then Ok(Some(p))
    else if p in t then Err(NotADirectory)
    else if !mkdir then Ok(None)
    else if FileOnPath(t, p) then Err(Io)
    else Ok(Some(p))
  }

  /** The filesystem after `repo_dir` for the directory `p` on filesystem `t`. */
  ghost function DirEffect(t: Tree, p: Path, mkdir: bool): (m: Tree) {
    if p !in t && mkdir && !FileOnPath(t, p) then MkdirAll(t, p) else t
  }

  /**
   * Makes sure `gitdir + paths` is a directory: an existing directory is
   * returned, anything else that exists is an error, a missing one is created
   * with all of its ancestors when `mkdir` is set and reported absent otherwise.
   */
  method RepoDir(fs: FileSystem, gitdir: Path, paths: seq<Segment>, mkdir: bool) returns (r: Result<Option<Path>>)
    requires fs.Valid()
    modifies fs
    ensures fs.Valid()
    ensures r == DirOutcome(old(fs.entries), gitdir + paths, mkdir)
    ensures fs.entries == DirEffect(old(fs.entries), gitdir + paths, mkdir)
  {
    var path := RepoPath(gitdir, paths);
    if fs.Exists(path) {
      if fs.IsDir(path) {
        return Ok(Some(path));
      } else {
        return Err(NotADirectory);
      }
    } else if mkdir {
      var made := fs.CreateDirAll(path);
      if made.Err? {
        return Err(made.error);
      }
      return Ok(Some(path));
    } else {
      return Ok(None);
    }
  }

  /**
   * The four outcomes of `repo_dir`. An existing directory is returned and an
   * existing non-directory refused, both without a change; a missing directory
   * is reported absent without `mkdir`, and with it is created together with
   * every missing ancestor (unless a file blocks the way), adding only
   * directories and keeping the filesystem well formed.
   */
  lemma RepoDirOutcomes(t: Tree, p: Path, mkdir: bool)
    requires WellFormed(t)
    ensures IsDirAt(t, p) ==> DirOutcome(t, p, mkdir) == Ok(Some(p)) && DirEffect(t, p, mkdir) == t
    ensures IsFileAt(t, p) ==> DirOutcome(t, p, mkdir) == Err(NotADirectory) && DirEffect(t, p, mkdir) == t
    ensures p !in t && !mkdir ==> DirOutcome(t, p, mkdir) == Ok(None) && DirEffect(t, p, mkdir) == t
    ensures DirOutcome(t, p, mkdir).Err? ==> DirEffect(t, p, mkdir) == t
    ensures mkdir ==> DirOutcome(t, p, mkdir) != Ok(None)
    ensures p !in t && mkdir ==> (DirOutcome(t, p, mkdir) == Ok(Some(p)) <==> !FileOnPath(t, p))
    ensures p !in t && mkdir && FileOnPath(t, p) ==> DirOutcome(t, p, mkdir) == Err(Io)
    ensures mkdir && DirOutcome(t, p, mkdir).Ok? ==>
      var m := DirEffect(t, p, mkdir);
      && WellFormed(m)
      && (forall q :: q <= p ==> IsDirAt(m, q))
      && (forall q :: q in m <==> q in t || q <= p)
      && (forall q :: q in t ==> m[q] == t[q])
  {
    if mkdir && DirOutcome(t, p, mkdir).Ok? {
      if p in t {
        MkdirAllOfDir(t, p);
        DirHasNoFileOnPath(t, p);
        forall q
          ensures q <= p ==> IsDirAt(t, q)
          ensures q in t || q <= p ==> q in t
        {
          if q <= p && q != p {
            AncestorsAreDirs(t, p, q);
          }
        }
      } else {
        MkdirAllWellFormed(t, p);
        forall q
          ensures q in MkdirAll(t, p) <==> q in t || q <= p
          ensures q in t ==> MkdirAll(t, p)[q] == t[q]
        {
          MkdirAllEntries(t, p, q);
        }
      }
    }
  }

  /** `repo_dir` with `mkdir` set is idempotent: a second call returns the same path and changes nothing. */
  lemma RepoDirIdempotent(t: Tree, p: Path)
    requires WellFormed(t) && DirOutcome(t, p, true).Ok?
    ensures DirOutcome(DirEffect(t, p, true), p, true) == DirOutcome(t, p, true)
    ensures DirEffect(DirEffect(t, p, true), p, true) == DirEffect(t, p, true)
  {
    RepoDirOutcomes(t, p, true);
  }

  /** `repo_dir` creating a missing directory whose parent is a directory adds exactly that directory. */
  lemma RepoDirNewChild(t: Tree, p: Path)
    requires WellFormed(t) && p != [] && IsDirAt(t, Parent(p)) && p !in t
    ensures DirOutcome(t, p, true) == Ok(Some(p))
    ensures DirEffect(t, p, true) == t[p := Dir]
  {
    var d, x := Parent(p), p[|p| - 1];
    assert p == d + [x];
    MkdirAllNewChild(t, d, x);
  }

  /** `repo_dir` creating a missing directory and its missing parent, below a directory, adds exactly those two. */
  lemma RepoDirNewGrandchild(t: Tree, p: Path)
    requires WellFormed(t) && |p| >= 2 && IsDirAt(t, Parent(Parent(p))) && Parent(p) !in t
    ensures DirOutcome(t, p, true) == Ok(Some(p))
    ensures DirEffect(t, p, true) == t[Parent(p) := Dir][p := Dir]
  {
    var c := Parent(p);
    AbsentBelowAbsent(t, c, p);
    RepoDirNewChild(t, c);
    MkdirAllChild(t, p);
    FileOnPathChild(t, p);
    assert c == Parent(c) + [c[|c| - 1]];
    MkdirAllNewChild(t, Parent(c), c[|c| - 1]);
  }

  /**
   * Makes sure the directory of the file `gitdir + paths` exists, as `RepoDir`
   * does for all segments but the last, and then names the file. The file
   * itself is never created. With no segments at all, `paths.len() - 1`
   * panics before anything happens: as an arithmetic overflow, or, with
   * overflow checks off, as a slice bound out of range.
   */
  method RepoFile(fs: FileSystem, gitdir: Path, paths: seq<Segment>, mkdir: bool) returns (r: Result<Option<Path>>)
    requires fs.Valid()
    modifies fs
    ensures fs.Valid()
    ensures paths == [] ==> r == Err(Panicked(Overflow)) && fs.entries == old(fs.entries)
    ensures paths != [] ==>
      var dir := DirOutcome(old(fs.entries), gitdir + paths[..|paths| - 1], mkdir);
      r == if dir.Ok? && dir.value.Some? then Ok(Some(gitdir + paths)) else dir
    ensures paths != [] ==> fs.entries == DirEffect(old(fs.entries), gitdir + paths[..|paths| - 1], mkdir)
    ensures (gitdir + paths in fs.entries) == (gitdir + paths in old(fs.entries))
  {
    if |paths| == 0 {
      return Err(Panicked(Overflow));
    }
    ghost var t := fs.entries;
    var dir := RepoDir(fs, gitdir, paths[..|paths| - 1], mkdir);
    MkdirAllEntries(t, gitdir + paths[..|paths| - 1], gitdir + paths);
    if dir.Err? {
      return Err(dir.error);
    }
    if dir.value.Some? {
      var file := RepoPath(gitdir, paths);
      return Ok(Some(file));
    } else {
      return Ok(None);
    }
  }

  //
  // GitRepository::build
  //

  /** What `build(path, force)` returns on filesystem `t`. */
  ghost function BuildOutcome(t: Tree, path: Path, force: bool): (r: Result<GitRepository>) {
    var gitdir := path + [GitDirName];
    if !(force || IsDirAt(t, gitdir)) then Err(NotARepository)
    else if IsFileAt(t, gitdir) then Err(NotADirectory)
    else if gitdir !in t then Ok(GitRepository(path, gitdir, Empty))
    else if IsFileAt(t, gitdir + [ConfigName]) then Ok(GitRepository(path, gitdir, Loaded(t[gitdir + [ConfigName]].contents)))
    else Err(Panicked(Io))
  }

  /**
   * Opens the repository whose worktree is `path`. Without `force`, `.git` must
   * be a directory. When `.git` is a directory its `config` file is loaded; the
   * load's `unwrap` panics when that file cannot be read.
   */
  method Build(fs: FileSystem, path: Path, force: bool) returns (r: Result<GitRepository>)
    requires fs.Valid()
    modifies fs
    ensures fs.Valid()
    ensures fs.entries == old(fs.entries)
    ensures r == BuildOutcome(old(fs.entries), path, force)
  {
    var worktree := path;
    var gitdir := worktree + [GitDirName];
    if !(force || fs.IsDir(gitdir)) {
      return Err(NotARepository);
    }
    var conf := Empty;
    assert gitdir + [ConfigName][..0] == gitdir;
    var repoConfig := RepoFile(fs, gitdir, [ConfigName], false);
    if repoConfig.Err? {
      return Err(repoConfig.error);
    }
    if repoConfig.value.Some? {
      var text := fs.ReadToString(repoConfig.value.value);
      if text.Err? {
        return Err(Unwrapped(text.error));
      }
      conf := Loaded(text.value);
    }
    return Ok(GitRepository(worktree, gitdir, conf));
  }

  /** A handle `build` returns has the given path as its worktree and `.git` inside it as its git directory. */
  lemma BuildSetsPaths(t: Tree, path: Path, force: bool)
    ensures BuildOutcome(t, path, force).Ok? ==>
      && BuildOutcome(t, path, force).value.worktree == path
      && BuildOutcome(t, path, force).value.gitdir == path + [GitDirName]
  {
  }

  /** Without `force`, `build` reports "not a repository" exactly when `.git` is not a directory; with it, never. */
  lemma BuildRequiresGitDir(t: Tree, path: Path)
    ensures BuildOutcome(t, path, false) == Err(NotARepository) <==> !IsDirAt(t, path + [GitDirName])
    ensures BuildOutcome(t, path, true) != Err(NotARepository)
  {
  }

  /** When `build` succeeds: with a `.git` directory the configuration is the text of `.git/config`; without one it is empty. */
  lemma BuildLoadsConfig(t: Tree, path: Path, force: bool)
    requires WellFormed(t)
    ensures var gitdir := path + [GitDirName];
      BuildOutcome(t, path, force).Ok? <==>
        (force || IsDirAt(t, gitdir)) && (gitdir !in t || (IsDirAt(t, gitdir) && IsFileAt(t, gitdir + [ConfigName])))
    ensures var gitdir := path + [GitDirName];
      BuildOutcome(t, path, force).Ok? ==>
        BuildOutcome(t, path, force).value.conf ==
          if gitdir in t then Loaded(t[gitdir + [ConfigName]].contents) else Empty
  {
  }

  //
  // repo_create
  //

  /** The directories and the one file `repo_create` makes under the `.git` directory `gitdir`. */
  ghost function Scaffold(gitdir: Path): (m: Tree) {
    map[gitdir := Dir,
        gitdir + [BranchesName] := Dir,
        gitdir + [ObjectsName] := Dir,
        gitdir + [RefsName] := Dir,
        gitdir + [RefsName, TagsName] := Dir,
        gitdir + [RefsName, HeadsName] := Dir,
        gitdir + [HeadName] := File(HeadRef)]
  }

  /** The filesystem after a successful `repo_create(path)` on `t`. */
  ghost function CreatedTree(t: Tree, path: Path): (m: Tree) {
    (if path in t then t else t[path := Dir]) + Scaffold(path + [GitDirName])
  }

  /** What `repo_create(path)` returns on filesystem `t`, decision by decision. */
  ghost function CreateOutcome(t: Tree, path: Path): (r: Result<GitRepository>) {
    var built := BuildOutcome(t, path, true);
    var gitdir := path + [GitDirName];
    if built.Err? then Err(Unwrapped(built.error))
    else if path in t && !IsDirAt(t, path) then Err(NotADirectory)
    else if path in t && gitdir in t && !IsDirAt(t, gitdir) then Err(Panicked(Io))
    else if path in t && gitdir in t && |Children(t, gitdir)| > 0 then Err(DirectoryNotEmpty)
    else if path !in t && !(path != [] && IsDirAt(t, Parent(path))) then Err(Panicked(Io))
    else built
  }

  /**
   * Bootstraps a repository at `path`: checks the worktree and `.git`, creates
   * a missing worktree (its parent must exist), then the four scaffold
   * directories, then `HEAD`. Every failure happens before the first change.
   */
  method RepoCreate(fs: FileSystem, path: Path) returns (r: Result<GitRepository>)
    requires fs.Valid()
    modifies fs
    ensures fs.Valid()
    ensures r == CreateOutcome(old(fs.entries), path)
    ensures fs.entries == if r.Ok? then CreatedTree(old(fs.entries), path) else old(fs.entries)
  {
    ghost var t := fs.entries;
    var built := Build(fs, path, true);
    if built.Err? {
      return Err(Unwrapped(built.error));
    }
    var repo := built.value;
    ghost var gitdir := repo.gitdir;
    ChildrenAreEntries(t, gitdir, ConfigName);

    if fs.Exists(repo.worktree) {
      if !fs.IsDir(repo.worktree) {
        return Err(NotADirectory);
      }
      if fs.Exists(repo.gitdir) {
        var listing := fs.ReadDir(repo.gitdir);
        if listing.Err? {
          assert false;
          return Err(Panicked(Io));
        }
        if |listing.value| > 0 {
          return Err(DirectoryNotEmpty);
        }
      }
    } else {
      var made := fs.CreateDir(repo.worktree);
      if made.Err? {
        return Err(Unwrapped(made.error));
      }
    }

    // The worktree is now a directory and `.git` is missing.
    assert fs.entries == if path in t then t else t[path := Dir];
    assert Parent(repo.gitdir) == path;
    BootstrapGitDir(fs, repo.gitdir);
    return Ok(repo);
  }

  /**
   * Why `repo_create` refuses, by the state of the worktree and of its `.git`:
   * a non-directory worktree; a `.git` holding a config file (so it is not
   * empty); and the panics of the `unwrap`s on `build` (a `.git` that is a file,
   * or a `.git` directory without a readable config file) and on creating a
   * worktree whose parent is not a directory. It never reports "not a repository".
   */
  lemma CreateRefusals(t: Tree, path: Path)
    requires WellFormed(t)
    ensures var gitdir := path + [GitDirName];
      && (IsFileAt(t, path) ==> CreateOutcome(t, path) == Err(NotADirectory))
      && (IsDirAt(t, gitdir) && IsFileAt(t, gitdir + [ConfigName]) ==> CreateOutcome(t, path) == Err(DirectoryNotEmpty))
      && (IsFileAt(t, gitdir) ==> CreateOutcome(t, path) == Err(Panicked(NotADirectory)))
      && (IsDirAt(t, gitdir) && !IsFileAt(t, gitdir + [ConfigName]) ==> CreateOutcome(t, path) == Err(Panicked(Io)))
      && (path !in t && !(path != [] && IsDirAt(t, Parent(path))) ==> CreateOutcome(t, path) == Err(Panicked(Io)))
    ensures CreateOutcome(t, path) != Err(NotARepository)
  {
    var gitdir := path + [GitDirName];
    ParentOfChild(path, GitDirName);
    ChildrenAreEntries(t, gitdir, ConfigName);
  }

  /**
   * `repo_create` succeeds exactly when `.git` is missing and the worktree is a
   * directory or can be created as one in an existing parent directory; it then
   * returns the handle `build(path, true)` made, with an empty configuration.
   */
  lemma CreateSucceedsIff(t: Tree, path: Path)
    requires WellFormed(t)
    ensures var gitdir := path + [GitDirName];
      CreateOutcome(t, path).Ok? <==>
        gitdir !in t && (IsDirAt(t, path) || (path !in t && path != [] && IsDirAt(t, Parent(path))))
    ensures CreateOutcome(t, path).Ok? ==>
      CreateOutcome(t, path).value == GitRepository(path, path + [GitDirName], Empty)
  {
    var gitdir := path + [GitDirName];
    ParentOfChild(path, GitDirName);
    ChildrenAreEntries(t, gitdir, ConfigName);
  }

  /**
   * The shape of `Scaffold`: its paths lie at or below the `.git` directory,
   * each but `.git` has its parent among them as a directory, and `HEAD` is its
   * only file.
   */
  lemma ScaffoldShape(gitdir: Path)
    ensures forall q :: q in Scaffold(gitdir) ==> gitdir <= q
    ensures forall q :: q in Scaffold(gitdir) && q != gitdir ==>
      q != [] && IsDirAt(Scaffold(gitdir), Parent(q))
    ensures forall q :: q in Scaffold(gitdir) && q != gitdir + [HeadName] ==> Scaffold(gitdir)[q] == Dir
    ensures Scaffold(gitdir)[gitdir + [HeadName]] == File(HeadRef)
  {
    ScaffoldSegments(gitdir);
    ScaffoldParents(gitdir);
  }

  /** The scaffold's paths extend `.git` by one or two distinct segments. */
  lemma ScaffoldSegments(gitdir: Path)
    ensures forall q :: q in Scaffold(gitdir) ==> gitdir <= q
    ensures forall q :: q in Scaffold(gitdir) && q != gitdir + [HeadName] ==> Scaffold(gitdir)[q] == Dir
    ensures Scaffold(gitdir)[gitdir + [HeadName]] == File(HeadRef)
  {
    var refs := gitdir + [RefsName];
    var b, o, h := gitdir + [BranchesName], gitdir + [ObjectsName], gitdir + [HeadName];
    var rt, rh := gitdir + [RefsName, TagsName], gitdir + [RefsName, HeadsName];
    assert b[|gitdir|] == BranchesName && o[|gitdir|] == ObjectsName && h[|gitdir|] == HeadName;
    assert refs[|gitdir|] == RefsName && rt[|gitdir|] == RefsName && rh[|gitdir|] == RefsName;
    assert rt[|gitdir| + 1] == TagsName && rh[|gitdir| + 1] == HeadsName;
  }

  /** Every scaffold path but `.git` has its parent in the scaffold as a directory. */
  lemma ScaffoldParents(gitdir: Path)
    requires forall q :: q in Scaffold(gitdir) && q != gitdir + [HeadName] ==> Scaffold(gitdir)[q] == Dir
    ensures forall q :: q in Scaffold(gitdir) && q != gitdir ==>
      q != [] && IsDirAt(Scaffold(gitdir), Parent(q))
  {
    var refs := gitdir + [RefsName];
    var h := gitdir + [HeadName];
    assert h[|gitdir|] == HeadName && refs[|gitdir|] == RefsName;
    ParentOfChild(gitdir, BranchesName);
    ParentOfChild(gitdir, ObjectsName);
    ParentOfChild(gitdir, RefsName);
    ParentOfChild(gitdir, HeadName);
    ParentOfChild(refs, TagsName);
    ParentOfChild(refs, HeadsName);
    assert refs + [TagsName] == gitdir + [RefsName, TagsName];
    assert refs + [HeadsName] == gitdir + [RefsName, HeadsName];
  }

  /**
   * After a successful `repo_create(path)`: the worktree, `.git`, `branches`,
   * `objects`, `refs/tags` and `refs/heads` are directories, `HEAD` holds the
   * reference to `master`, every earlier entry is unchanged, and nothing else
   * was added.
   */
  lemma CreatedTreeLayout(t: Tree, path: Path)
    requires WellFormed(t) && CreateOutcome(t, path).Ok?
    ensures var m, gitdir := CreatedTree(t, path), path + [GitDirName];
      && IsDirAt(m, path) && IsDirAt(m, gitdir)
      && IsDirAt(m, gitdir + [BranchesName]) && IsDirAt(m, gitdir + [ObjectsName])
      && IsDirAt(m, gitdir + [RefsName, TagsName]) && IsDirAt(m, gitdir + [RefsName, HeadsName])
      && m[gitdir + [HeadName]] == File(HeadRef)
      && (forall q :: q in t ==> q in m && m[q] == t[q])
      && m.Keys == t.Keys + {path} + Scaffold(gitdir).Keys
  {
    var gitdir := path + [GitDirName];
    CreateSucceedsIff(t, path);
    ScaffoldShape(gitdir);
    forall q | q in t
      ensures q !in Scaffold(gitdir)
    {
      if q in Scaffold(gitdir) {
        AbsentBelowAbsent(t, gitdir, q);
      }
    }
    assert gitdir + [BranchesName] in Scaffold(gitdir);
    assert gitdir + [ObjectsName] in Scaffold(gitdir);
    assert gitdir + [RefsName, TagsName] in Scaffold(gitdir);
    assert gitdir + [RefsName, HeadsName] in Scaffold(gitdir);
  }

  /** A successful `repo_create` leaves the filesystem well formed. */
  lemma CreatedTreeWellFormed(t: Tree, path: Path)
    requires WellFormed(t) && CreateOutcome(t, path).Ok?
    ensures WellFormed(CreatedTree(t, path))
  {
    var m, gitdir := CreatedTree(t, path), path + [GitDirName];
    var sc := Scaffold(gitdir);
    CreatedTreeLayout(t, path);
    CreateSucceedsIff(t, path);
    ParentOfChild(path, GitDirName);
    ScaffoldShape(gitdir);
    assert [] !in sc;
    forall q | q in m && q != []
      ensures IsDirAt(m, Parent(q))
    {
      var r := Parent(q);
      if q in sc {
        if q != gitdir {
          assert IsDirAt(sc, r);
        }
      } else if q in t {
        assert IsDirAt(t, r);
        if r in sc {
          AbsentBelowAbsent(t, gitdir, r);
        }
      } else {
        assert q == path && IsDirAt(t, r);
        assert r !in sc;
      }
    }
  }

  /**
   * `repo_create` writes no config file, while `build` loads `.git/config`
   * whenever `.git` is a directory and an `unwrap` panics when it is missing.
   * So opening a freshly created repository panics, and so does creating it again.
   */
  lemma ReopenAfterCreatePanics(t: Tree, path: Path)
    requires WellFormed(t) && CreateOutcome(t, path).Ok?
    ensures BuildOutcome(CreatedTree(t, path), path, false) == Err(Panicked(Io))
    ensures CreateOutcome(CreatedTree(t, path), path) == Err(Panicked(Io))
  {
    var m, gitdir := CreatedTree(t, path), path + [GitDirName];
    CreatedTreeLayout(t, path);
    CreatedTreeHasNoConfig(t, path);
    assert IsDirAt(m, gitdir) && gitdir + [ConfigName] !in m;
    assert BuildOutcome(m, path, true) == Err(Panicked(Io));
  }

  /** The tree a successful `repo_create` leaves has no `.git/config`. */
  lemma CreatedTreeHasNoConfig(t: Tree, path: Path)
    requires WellFormed(t) && CreateOutcome(t, path).Ok?
    ensures path + [GitDirName] + [ConfigName] !in CreatedTree(t, path)
  {
    var gitdir := path + [GitDirName];
    var config := gitdir + [ConfigName];
    CreateSucceedsIff(t, path);
    assert config !in t by {
      if config in t {
        AbsentBelowAbsent(t, gitdir, config);
      }
    }
    assert config[|gitdir|] == ConfigName;
    assert config !in Scaffold(gitdir);
  }

  /**
   * The scaffolding steps of `repo_create` for a missing `.git` directory
   * `gitdir` inside an existing worktree: the four directories, then `HEAD`
   * with the reference to the default branch. None of the `unwrap`s can fail.
   */
  method BootstrapGitDir(fs: FileSystem, gitdir: Path)
    requires fs.Valid()
    requires gitdir != [] && IsDirAt(fs.entries, Parent(gitdir)) && gitdir !in fs.entries
    modifies fs
    ensures fs.Valid()
    ensures fs.entries == old(fs.entries) + Scaffold(gitdir)
  {
    ghost var t1 := fs.entries;
    ScaffoldDirs(fs, gitdir);
    ghost var t5 := fs.entries;
    ghost var head := gitdir + [HeadName];
    assert gitdir + [HeadName][..0] == gitdir;
    ParentOfChild(gitdir, HeadName);
    AbsentBelowAbsent(t1, gitdir, head);
    assert head[|gitdir|] == HeadName;
    var headPath := RepoFile(fs, gitdir, [HeadName], false);
    if headPath.Err? || headPath.value.None? {
      assert false;
      return;
    }
    var created := fs.CreateFile(headPath.value.value);
    if created.Err? {
      assert false;
      return;
    }
    fs.WriteAll(headPath.value.value, HeadRef);
    assert [] + HeadRef == HeadRef;
    assert fs.entries == t5[head := File([])][head := File(HeadRef)];
    ScaffoldByUpdates(t1, gitdir);
  }

  /** The four `repo_dir(..., true).unwrap()` calls of `repo_create`, each adding the directories it names. */
  method ScaffoldDirs(fs: FileSystem, gitdir: Path)
    requires fs.Valid()
    requires gitdir != [] && IsDirAt(fs.entries, Parent(gitdir)) && gitdir !in fs.entries
    modifies fs
    ensures fs.Valid()
    ensures fs.entries ==
      old(fs.entries)[gitdir := Dir][gitdir + [BranchesName] := Dir][gitdir + [ObjectsName] := Dir]
       [gitdir + [RefsName] := Dir][gitdir + [RefsName, TagsName] := Dir][gitdir + [RefsName, HeadsName] := Dir]
  {
    ghost var t1 := fs.entries;
    ghost var refs := gitdir + [RefsName];
    ParentOfChild(gitdir, BranchesName);
    ParentOfChild(gitdir, ObjectsName);
    ParentOfChild(gitdir, RefsName);
    ParentOfChild(refs, TagsName);
    ParentOfChild(refs, HeadsName);
    assert refs + [TagsName] == gitdir + [RefsName, TagsName];
    assert refs + [HeadsName] == gitdir + [RefsName, HeadsName];
    AbsentBelowAbsent(t1, gitdir, gitdir + [BranchesName]);
    AbsentBelowAbsent(t1, gitdir, gitdir + [ObjectsName]);
    AbsentBelowAbsent(t1, gitdir, refs);
    AbsentBelowAbsent(t1, gitdir, refs + [HeadsName]);
    assert (gitdir + [ObjectsName])[|gitdir|] == ObjectsName;
    assert refs[|gitdir|] == RefsName;
    assert (refs + [HeadsName])[|refs|] == HeadsName;

    RepoDirNewGrandchild(t1, gitdir + [BranchesName]);
    var branches := RepoDir(fs, gitdir, [BranchesName], true);
    if branches.Err? {
      assert false;
      return;
    }

    ghost var t2 := fs.entries;
    RepoDirNewChild(t2, gitdir + [ObjectsName]);
    var objects := RepoDir(fs, gitdir, [ObjectsName], true);
    if objects.Err? {
      assert false;
      return;
    }

    ghost var t3 := fs.entries;
    RepoDirNewGrandchild(t3, refs + [TagsName]);
    var tags := RepoDir(fs, gitdir, [RefsName, TagsName], true);
    if tags.Err? {
      assert false;
      return;
    }

    ghost var t4 := fs.entries;
    RepoDirNewChild(t4, refs + [HeadsName]);
    var heads := RepoDir(fs, gitdir, [RefsName, HeadsName], true);
    if heads.Err? {
      assert false;
      return;
    }
  }

  /** `Scaffold` added to a filesystem is the sequence of single updates `BootstrapGitDir` makes. */
  lemma ScaffoldByUpdates(t: Tree, gitdir: Path)
    ensures t + Scaffold(gitdir) ==
      t[gitdir := Dir][gitdir + [BranchesName] := Dir][gitdir + [ObjectsName] := Dir]
       [gitdir + [RefsName] := Dir][gitdir + [RefsName, TagsName] := Dir][gitdir + [RefsName, HeadsName] := Dir]
       [gitdir + [HeadName] := File([])][gitdir + [HeadName] := File(HeadRef)]
  {
  }
}
