# nickgit repository layer in Dafny

This project models the repository layer of `nickgit`, a small Git clone
written in Rust (`src/lib.rs`). That layer has three parts:

- the `GitRepository` handle (worktree, git directory, configuration) and
  `GitRepository::build`, which opens a worktree;
- the path helpers `repo_path`, `repo_dir` and `repo_file`;
- `repo_create`, which bootstraps a new `.git` directory.

The filesystem is a class `FileSystem.FileSystem` with one mutable field: a
map from paths (sequences of segments) to nodes, each a directory or a
regular file with bytes. Its `Valid()` invariant says the filesystem is well
formed:

- the root is a directory;
- the parent of every entry is a directory.

The class's methods stand for the `std::fs` calls the library makes. The
library functions are methods of the module `NickGit` that take the
filesystem as a parameter:

- `RepoPath` is proved to return the directory followed by the segments;
- `RepoDir`, `RepoFile`, `Build` and `RepoCreate` are each proved equal to a
  ghost function of the old state. For example, `NickGit.RepoDir` returns
  `DirOutcome(old(fs.entries), ...)` and leaves
  `DirEffect(old(fs.entries), ...)`.

Lemmas about these ghost functions state what the library promises.

A path segment is a `Segment`: a non-empty string other than `.` and `..`
with no `/` in it. `PathBuf::join` adds exactly one component for such a
string. The library only joins the fixed names `.git`, `config`, `HEAD`,
`branches`, `objects`, `refs`, `tags` and `heads`. A path given to `build`
or `repo_create` is taken as the sequence of its components.

Panics are modelled as values. `Err(Panicked(cause))` means the process
would abort at that point. Two kinds of call produce one:

- an `.unwrap()` that can fail: lines 27, 74 and 90 of `src/lib.rs`;
- the panic on line 66 when `repo_file` is given no segments, which gives
  `Err(Panicked(Overflow))`. With overflow checks on, `paths.len() - 1`
  panics as an arithmetic overflow. With them off, it wraps, and the slice
  `&paths[..usize::MAX]` panics as out of range.

The other `unwrap`s, on lines 83 and 93-99, are proved unable to fail in the
states where they run. Their failure branches are `assert false`, and the
scaffold steps `ScaffoldDirs` and `BootstrapGitDir` return no result. The
other errors carry a kind only: `NotARepository`, `NotADirectory`,
`DirectoryNotEmpty`, `Io` or `Overflow`.

Modules:

- `Results`: the error kinds, `Unwrapped`, `Option` and `Result`;
- `FileSystem`: paths, nodes, the well-formedness invariant, the
  `create_dir_all` state `MkdirAll`, and the `FileSystem` class;
- `NickGit`: `GitRepository`, `RepoPath`, `RepoDir`, `RepoFile`, `Build`,
  `RepoCreate` and the lemmas about them.

Two behaviours of the code are stated as theorems, because the code
entails them:

- `build` on a worktree whose `.git` directory has no `config` file panics.
  The code names `.git/config` whenever `.git` is a directory, and loading a
  missing file fails at the `unwrap` on line 27. As a result:
  - `repo_create` does not write a configuration, so opening a freshly
    created repository with `build(path, false)` panics;
  - calling `repo_create` again on it panics too (`ReopenAfterCreatePanics`);
  - `repo_create` over an existing but empty `.git` directory also panics,
    because its own `build(path, true)` fails the same way (`CreateRefusals`).
- The `Directory not empty` refusal is reachable only when `.git/config` is
  a file. Any other non-empty `.git` directory makes `build` panic first.

## Model

| member | source | states |
|---|---|---|
| NickGit.RepoPath | src/lib.rs:37-43 | joining the segments one by one onto the directory yields the directory followed by exactly those segments, in order; no segments gives the directory itself |
| NickGit.RepoPathInjective | src/lib.rs:37-43 | two segment lists joined onto the same directory give the same path only if the lists are equal |
| NickGit.RepoDir | src/lib.rs:45-63 | the result and the new filesystem are `DirOutcome`/`DirEffect` of the old filesystem at `gitdir + paths`; the filesystem stays well formed |
| NickGit.RepoDirOutcomes | src/lib.rs:45-63 | an existing directory is returned unchanged; an existing non-directory is refused as not a directory; a missing one is absent without `mkdir`; with `mkdir` it is never reported absent, and it is returned exactly when no regular file lies on its path, failing with an I/O error otherwise; every error leaves the filesystem unchanged; a successful `mkdir` keeps the filesystem well formed, makes every prefix a directory, adds only prefixes of the path and alters no existing entry |
| NickGit.RepoDirIdempotent | src/lib.rs:48-59 | a second `repo_dir(..., true)` after a successful one returns the same result and changes nothing |
| NickGit.RepoDirNewChild | src/lib.rs:57-59 | creating a missing directory whose parent is a directory returns it and adds exactly that one directory |
| NickGit.RepoDirNewGrandchild | src/lib.rs:57-59 | creating a missing directory and its missing parent under a directory returns it and adds exactly those two directories |
| NickGit.RepoFile | src/lib.rs:65-71 | with no segments, panics on line 66 and changes nothing; otherwise behaves as `repo_dir` on all segments but the last, and if that gives a directory, the result is the full file path; the file's own presence is unchanged in every case |
| NickGit.Build | src/lib.rs:16-34 | the result is `BuildOutcome` of the filesystem, which is not changed |
| NickGit.BuildSetsPaths | src/lib.rs:17-18 | a returned handle has the given path as its worktree and `path/.git` as its git directory |
| NickGit.BuildRequiresGitDir | src/lib.rs:20-23 | without `force`, "not a repository" is returned exactly when `.git` is not a directory; with `force`, never |
| NickGit.BuildLoadsConfig | src/lib.rs:25-28 | `build` succeeds exactly when it is forced or `.git` is a directory, and `.git` is either missing or a directory holding a `config` file; the configuration is that file's text, or empty when `.git` is missing |
| NickGit.RepoCreate | src/lib.rs:73-103 | the result is `CreateOutcome` of the old filesystem; on success the new filesystem is `CreatedTree`, and on any failure it is unchanged |
| NickGit.CreateRefusals | src/lib.rs:74-91 | a worktree that is a file is refused as not a directory; a `.git` directory with a `config` file is refused as not empty; a `.git` that is a file panics (line 74); a `.git` directory with no readable `config` panics (line 27 through line 74); a missing worktree whose parent is not a directory panics (line 90); "not a repository" never occurs |
| NickGit.CreateSucceedsIff | src/lib.rs:73-103 | `repo_create` succeeds exactly when `.git` is missing and the worktree is a directory or a missing entry whose parent is a directory; the handle then has the worktree, `path/.git` and an empty configuration |
| NickGit.ScaffoldShape | src/lib.rs:93-100 | every created path lies inside `.git`; each one except `.git` has a created directory as its parent; all are directories except `HEAD`, which holds the reference to `master` |
| NickGit.CreatedTreeLayout | src/lib.rs:93-100 | after success, the worktree, `.git`, `branches`, `objects`, `refs/tags` and `refs/heads` are directories; `HEAD` holds `ref: refs/heads/master` and a newline; every earlier entry is unchanged; and nothing else is added |
| NickGit.CreatedTreeWellFormed | src/lib.rs:73-103 | a successful `repo_create` leaves the filesystem well formed |
| NickGit.CreatedTreeHasNoConfig | src/lib.rs:93-100 | a successful `repo_create` creates no `.git/config` |
| NickGit.ReopenAfterCreatePanics | src/lib.rs:25-28 | after a successful `repo_create`, both `build(path, false)` and a second `repo_create` end in the panic of line 27 |
| NickGit.BootstrapGitDir | src/lib.rs:93-100 | inside an existing worktree with no `.git`, the scaffold steps add exactly `Scaffold(gitdir)` and none of their `unwrap`s fails |
| NickGit.ScaffoldDirs | src/lib.rs:93-96 | the four `repo_dir(..., true)` calls add `.git`, `branches`, `objects`, `refs`, `refs/tags` and `refs/heads` as directories, and nothing else |
| FileSystem.FileSystem.Exists | src/lib.rs:48 | true exactly when something is at the path, that is, when it is a directory or a regular file (also the test on lines 76 and 83) |
| FileSystem.FileSystem.IsDir | src/lib.rs:49 | true exactly when the path is a directory entry; then the path exists, and `read_dir` on it succeeds exactly in that case (also the test on lines 20 and 77) |
| FileSystem.FileSystem.ReadDir | src/lib.rs:83 | succeeds exactly on a directory, and then lists exactly the names of its entries; fails with an I/O error otherwise |
| FileSystem.FileSystem.ReadToString | src/lib.rs:27 | succeeds exactly on a regular file and returns its contents; fails with an I/O error otherwise |
| FileSystem.FileSystem.CreateDir | src/lib.rs:90 | succeeds exactly when the path is missing, not the root, and has a directory as its parent; adds that one directory; on failure, changes nothing |
| FileSystem.FileSystem.CreateDirAll | src/lib.rs:58 | succeeds exactly when no prefix of the path is a regular file; then the filesystem is `MkdirAll` of the old one; on failure, it is unchanged |
| FileSystem.FileSystem.CreateFile | src/lib.rs:99 | succeeds exactly when the parent is a directory and the path is not a directory; leaves an empty regular file there and changes nothing else |
| FileSystem.FileSystem.WriteAll | src/lib.rs:100 | appends the bytes to the file's contents and changes nothing else |
| FileSystem.MkdirAllWellFormed | src/lib.rs:58 | when no file blocks the path, the state `create_dir_all` leaves is well formed and has every prefix of the path as a directory |
| FileSystem.MkdirAllOfDir | src/lib.rs:58 | `create_dir_all` of an existing directory changes nothing |
| FileSystem.MkdirAllNewChild | src/lib.rs:58 | `create_dir_all` of a missing child of a directory adds exactly that child |

## Left out

- `src/main.rs` and the command-line interface are not part of this model.
- Configuration: the INI text of `.git/config` is kept as raw bytes
  (`Config.Loaded`). INI parsing, and the `load` errors it adds beyond a
  missing or unreadable file, are not modelled.
- Operating-system behaviour: permissions, disk-full and other spontaneous
  I/O failures, symbolic links, absolute paths, and UTF-8 validation in
  `read_to_string` are not modelled. Paths are plain segment sequences from
  one root.
- Path normalisation: `Segment` excludes `""`, `.`, `..` and strings
  containing `/`. Joining such a string with `PathBuf::join` adds zero
  components, several components, or a step up. These cases are not
  modelled, so `RepoPathInjective` holds only for real single components.
- Error messages: errors are told apart by kind only; the text of the
  `format!` calls on lines 21, 54, 80 and 86 is not modelled.
- Finding a repository by walking up from a directory, and writing the
  `description` and `config` files, are not in `src/lib.rs` and are not
  modelled.
- FileSystem.FileSystem.WriteAll: assumes a write to an open regular file
  cannot fail, so the `?` on line 100 never returns an error in this model.
  The `?` on line 99 cannot fail either: `.git` was missing before the
  scaffold was made, so `HEAD` is never a directory.
- NickGit.BootstrapGitDir and NickGit.ScaffoldDirs split lines 93-100 of
  `repo_create` into smaller proofs. They do not exist in the source.
