/**
 * An abstract filesystem standing in for `std::fs` and `std::path`.
 *
 * A path is the sequence of its segment names, read from the root `[]`.
 * The filesystem is a map from paths to nodes; it is well formed when the root
 * is a directory and the parent of every entry is a directory. Permissions,
 * symbolic links and absolute segments are not modelled.
 */
module FileSystem {
  import opened Results

  /**
   * One path component, as `PathBuf::join` adds it: not empty, not `.` or
   * `..`, and without a separator, so that joining it adds exactly one
   * component.
   */
  type Segment = s: string | s != "" && s != "." && s != ".." && '/' !in s witness "a"
  type Path = seq<Segment>

  newtype byte = x: int | 0 <= x < 256

  datatype Node = Dir | File(contents: seq<byte>)

  type Tree = map<Path, Node>

  /** The bytes of an ASCII string, one byte per character, as a Rust byte literal holds them. */
  function AsciiBytes(s: string): (b: seq<byte>)
    requires forall i | 0 <= i < |s| :: s[i] as int < 128
  {
    seq(|s|, i requires 0 <= i < |s| => s[i] as int as byte)
  }

  function Parent(p: Path): (q: Path)
    requires p != []
  {
    p[..|p| - 1]
  }

  predicate IsDirAt(t: Tree, p: Path) {
    p in t && t[p].Dir?
  }

  predicate IsFileAt(t: Tree, p: Path) {
    p in t && t[p].File?
  }

  /** The filesystem invariant: the root is a directory and no entry is orphaned. */
  ghost predicate WellFormed(t: Tree) {
    && IsDirAt(t, [])
    && forall p :: p in t && p != [] ==> IsDirAt(t, Parent(p))
  }

  /** Some prefix of `p` (the root, an ancestor, or `p` itself) is a regular file. */
  ghost predicate FileOnPath(t: Tree, p: Path) {
    exists q :: q in t && q <= p && t[q].File?
  }

  /** The names directly inside directory `p`. */
  function Children(t: Tree, p: Path): (names: set<Segment>) {
    set q | q in t && |q| == |p| + 1 && q[..|p|] == p :: q[|p|]
  }

  /** `p` and all of its ancestors. */
  function Prefixes(p: Path): (ps: set<Path>) {
    set k | 0 <= k <= |p| :: p[..k]
  }

  /** The filesystem after `create_dir_all(p)` succeeds: every missing prefix of `p` becomes a directory. */
  function MkdirAll(t: Tree, p: Path): (m: Tree) {
    map q | q in t.Keys + Prefixes(p) :: if q in t then t[q] else Dir
  }

  //
  // Lemmas about paths and the invariant
  //

  lemma PrefixesArePrefixes(p: Path, q: Path)
    ensures q in Prefixes(p) <==> q <= p
  {
    if q <= p {
      assert q == p[..|q|];
    }
  }

  lemma ParentOfChild(p: Path, x: Segment)
    ensures Parent(p + [x]) == p
  {
    assert (p + [x])[..|p|] == p;
  }

  lemma ChildrenAreEntries(t: Tree, p: Path, s: Segment)
    ensures s in Children(t, p) <==> p + [s] in t
  {
    if p + [s] in t {
      var q := p + [s];
      assert |q| == |p| + 1 && q[..|p|] == p && q[|p|] == s;
    }
    if s in Children(t, p) {
      var q :| q in t && |q| == |p| + 1 && q[..|p|] == p && q[|p|] == s;
      assert q == p + [s];
    }
  }

  /** In a well-formed filesystem every proper prefix of an entry is a directory. */
  lemma {:induction false} AncestorsAreDirs(t: Tree, p: Path, q: Path)
    requires WellFormed(t) && p in t && q < p
    ensures IsDirAt(t, q)
    decreases |p|
  {
    var r := Parent(p);
    assert IsDirAt(t, r);
    assert q == r[..|q|];
    if q != r {
      AncestorsAreDirs(t, r, q);
    }
  }

  /** Nothing lies below a missing path. */
  lemma AbsentBelowAbsent(t: Tree, p: Path, q: Path)
    requires WellFormed(t) && p !in t && p <= q
    ensures q !in t
  {
    if q in t {
      if p == q {
      } else {
        AncestorsAreDirs(t, q, p);
      }
    }
  }

  /** A directory's path holds no file. */
  lemma DirHasNoFileOnPath(t: Tree, p: Path)
    requires WellFormed(t) && IsDirAt(t, p)
    ensures !FileOnPath(t, p)
  {
    forall q | q in t && q <= p
      ensures t[q].Dir?
    {
      if q != p {
        AncestorsAreDirs(t, p, q);
      }
    }
  }

  /** Extending a path by one segment adds that one candidate for a file. */
  lemma FileOnPathChild(t: Tree, p: Path)
    requires p != []
    ensures FileOnPath(t, p) <==> FileOnPath(t, Parent(p)) || IsFileAt(t, p)
  {
    var r := Parent(p);
    if FileOnPath(t, p) {
      var q :| q in t && q <= p && t[q].File?;
      if q != p {
        assert q == r[..|q|];
      }
    }
    if FileOnPath(t, r) {
      var q :| q in t && q <= r && t[q].File?;
      assert q == p[..|q|];
    }
  }

  //
  // Lemmas about create_dir_all's effect
  //

  /** What `MkdirAll` contains: the old entries, unchanged, and every prefix of the path. */
  lemma MkdirAllEntries(t: Tree, p: Path, q: Path)
    ensures q in MkdirAll(t, p) <==> q in t || q <= p
    ensures q in t ==> MkdirAll(t, p)[q] == t[q]
    ensures q !in t && q <= p ==> MkdirAll(t, p)[q] == Dir
  {
    PrefixesArePrefixes(p, q);
  }

  /** `create_dir_all` on an existing directory changes nothing. */
  lemma MkdirAllOfDir(t: Tree, p: Path)
    requires WellFormed(t) && IsDirAt(t, p)
    ensures MkdirAll(t, p) == t
  {
    forall q | q in Prefixes(p)
      ensures q in t
    {
      PrefixesArePrefixes(p, q);
      if q != p {
        AncestorsAreDirs(t, p, q);
      }
    }
    assert MkdirAll(t, p).Keys == t.Keys;
  }

  /** Creating all of `p` is creating all of its parent, then `p` itself if missing. */
  lemma MkdirAllChild(t: Tree, p: Path)
    requires p != []
    ensures MkdirAll(t, p) == if p in t then MkdirAll(t, Parent(p)) else MkdirAll(t, Parent(p))[p := Dir]
  {
    var r := Parent(p);
    forall q
      ensures q in MkdirAll(t, p) <==> q in MkdirAll(t, r) || q == p
    {
      if q <= p && q != p {
        assert q == r[..|q|];
      }
      if q <= r {
        assert q == p[..|q|];
      }
      MkdirAllEntries(t, p, q);
      MkdirAllEntries(t, r, q);
    }
    forall q | q in MkdirAll(t, p)
      ensures MkdirAll(t, p)[q] == (if p in t then MkdirAll(t, r) else MkdirAll(t, r)[p := Dir])[q]
    {
      MkdirAllEntries(t, p, q);
      MkdirAllEntries(t, r, q);
    }
  }

  /**
   * The state `create_dir_all` produces when no file blocks the path is well
   * formed and has every prefix of the path as a directory.
   */
  lemma MkdirAllWellFormed(t: Tree, p: Path)
    requires WellFormed(t) && !FileOnPath(t, p)
    ensures WellFormed(MkdirAll(t, p))
    ensures forall q :: q <= p ==> IsDirAt(MkdirAll(t, p), q)
  {
    var m := MkdirAll(t, p);
    forall q | q <= p
      ensures IsDirAt(m, q)
    {
      MkdirAllEntries(t, p, q);
    }
    MkdirAllEntries(t, p, []);
    forall q | q in m && q != []
      ensures IsDirAt(m, Parent(q))
    {
      var r := Parent(q);
      MkdirAllEntries(t, p, q);
      MkdirAllEntries(t, p, r);
      if q !in t {
        assert r == p[..|r|];
      }
    }
  }

  /** Creating a missing child of a directory adds exactly that child. */
  lemma MkdirAllNewChild(t: Tree, d: Path, x: Segment)
    requires WellFormed(t) && IsDirAt(t, d) && d + [x] !in t
    ensures !FileOnPath(t, d + [x])
    ensures MkdirAll(t, d + [x]) == t[d + [x] := Dir]
  {
    ParentOfChild(d, x);
    DirHasNoFileOnPath(t, d);
    FileOnPathChild(t, d + [x]);
    MkdirAllChild(t, d + [x]);
    MkdirAllOfDir(t, d);
  }

  /**
   * The filesystem: one mutable map. Its methods are the `std::fs` calls the
   * library makes; every one keeps the filesystem well formed.
   */
  class FileSystem {
    var entries: Tree

    ghost predicate Valid()
      reads this
    {
      WellFormed(entries)
    }

    /**
     * A filesystem holding only the root directory. The library never creates
     * a filesystem; this shows that `Valid()` can be established.
     */
    constructor ()
      ensures Valid()
      ensures entries == map[[] := Dir]
    {
      entries := map[[] := Dir];
    }

    /** `Path::exists`: whether anything, directory or regular file, is at `p`. */
    function Exists(p: Path): (b: bool)
      reads this
      ensures b <==> p in entries
      ensures b <==> IsDirAt(entries, p) || IsFileAt(entries, p)
    {
      p in entries
    }

    /** `Path::is_dir`: whether `p` is a directory, which is when `read_dir` succeeds on it. */
    function IsDir(p: Path): (b: bool)
      reads this
      ensures b <==> p in entries && entries[p] == Dir
      ensures b ==> Exists(p)
      ensures b <==> ReadDir(p).Ok?
    {
      IsDirAt(entries, p)
    }

    /** `fs::read_dir`: the names inside a directory; fails on anything else. */
    function ReadDir(p: Path): (r: Result<set<Segment>>)
      reads this
      ensures r.Ok? <==> IsDirAt(entries, p)
      ensures r.Err? ==> r.error == Io
      ensures r.Ok? ==> forall s :: s in r.value <==> p + [s] in entries
    {
      if IsDirAt(entries, p) then
        var names := Children(entries, p);
        assert forall s :: s in names <==> p + [s] in entries by {
          forall s ensures s in names <==> p + [s] in entries {
            ChildrenAreEntries(entries, p, s);
          }
        }
        Ok(names)
      else
        Err(Io)
    }

    /** `fs::read_to_string`: the contents of a regular file; fails on anything else. */
    function ReadToString(p: Path): (r: Result<seq<byte>>)
      reads this
      ensures r.Ok? <==> IsFileAt(entries, p)
      ensures r.Err? ==> r.error == Io
      ensures r.Ok? ==> File(r.value) == entries[p]
    {
      if IsFileAt(entries, p) then Ok(entries[p].contents) else Err(Io)
    }

    /** `fs::create_dir`: creates one directory whose parent is a directory; fails if `p` exists. */
    method CreateDir(p: Path) returns (r: Result<()>)
      requires Valid()
      modifies this
      ensures Valid()
      ensures r.Ok? <==> p !in old(entries) && p != [] && IsDirAt(old(entries), Parent(p))
      ensures r.Err? ==> r.error == Io
      ensures entries == if r.Ok? then old(entries)[p := Dir] else old(entries)
    {
      if p in entries || p == [] || !IsDirAt(entries, Parent(p)) {
        return Err(Io);
      }
      entries := entries[p := Dir];
      return Ok(());
    }

    /**
     * `fs::create_dir_all`: creates `p` and every missing ancestor, walking down
     * from the root. It fails, before creating anything, when a prefix of `p` is
     * a regular file.
     */
    method CreateDirAll(p: Path) returns (r: Result<()>)
      requires Valid()
      modifies this
      ensures Valid()
      ensures r.Ok? <==> !FileOnPath(old(entries), p)
      ensures r.Err? ==> r.error == Io
      ensures entries == if r.Ok? then MkdirAll(old(entries), p) else old(entries)
    {
      ghost var t := entries;
      assert p[..0] == [];
      DirHasNoFileOnPath(t, []);
      MkdirAllOfDir(t, []);
      var k := 0;
      while k < |p|
        invariant 0 <= k <= |p|
        invariant WellFormed(entries)
        invariant IsDirAt(entries, p[..k])
        invariant entries == MkdirAll(t, p[..k])
        invariant !FileOnPath(t, p[..k])
      {
        var q := p[..k + 1];
        assert Parent(q) == p[..k];
        MkdirAllChild(t, q);
        FileOnPathChild(t, q);
        MkdirAllEntries(t, p[..k], q);
        if q !in entries {
          entries := entries[q := Dir];
        } else if entries[q].File? {
          AncestorsAreDirs(t, q, p[..k]);
          MkdirAllOfDir(t, p[..k]);
          assert q <= p;
          return Err(Io);
        }
        k := k + 1;
      }
      assert p[..k] == p;
      return Ok(());
    }

    /** `File::create`: creates or truncates a regular file whose parent is a directory. */
    method CreateFile(p: Path) returns (r: Result<()>)
      requires Valid()
      modifies this
      ensures Valid()
      ensures r.Ok? <==> p != [] && IsDirAt(old(entries), Parent(p)) && !IsDirAt(old(entries), p)
      ensures r.Err? ==> r.error == Io
      ensures entries == if r.Ok? then old(entries)[p := File([])] else old(entries)
    {
      if p == [] || !IsDirAt(entries, Parent(p)) || IsDirAt(entries, p) {
        return Err(Io);
      }
      entries := entries[p := File([])];
      return Ok(());
    }

    /** `Write::write_all` on a handle to the regular file `p`: appends `data`. */
    method WriteAll(p: Path, data: seq<byte>)
      requires Valid() && IsFileAt(entries, p)
      modifies this
      ensures Valid()
      ensures entries == old(entries)[p := File(old(entries)[p].contents + data)]
    {
      entries := entries[p := File(entries[p].contents + data)];
    }
  }
}
