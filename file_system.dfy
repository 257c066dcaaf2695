/**
 * The local disk as the unarchiver sees it through `java.io.File`: a set of
 * directories and a map from file paths to contents, over absolute paths.
 */
module FileSystems {
  import opened Wrappers
  import opened Paths

  newtype byte = x: int | 0 <= x < 256

  /** A snapshot of the disk. The root (the empty path) is always a directory. */
  datatype Disk = Disk(dirs: set<Path>, files: map<Path, seq<byte>>)

  /** `File.isDirectory`. */
  predicate IsDirectory(d: Disk, p: Path) {
    p == [] || p in d.dirs
  }

  /** `p` and each of its ancestors below the root. */
  function Lineage(p: Path): (r: set<Path>)
    ensures forall q :: q in r <==> q != [] && StartsWith(p, q)
  {
    set k | 1 <= k <= |p| :: p[..k]
  }

  /** `File.mkdirs` on a path that is not yet a directory: creates it and every
      missing ancestor, and fails (changing nothing) when the path or one of its
      ancestors is a regular file. */
  function Mkdirs(d: Disk, p: Path): (r: Option<Disk>)
    ensures r.Some? <==> forall q :: q in d.files ==> !(q != [] && StartsWith(p, q))
    ensures r.Some? ==> IsDirectory(r.value, p) && r.value.files == d.files &&
                        r.value.dirs == d.dirs + Lineage(p)
  {
    if exists k :: 1 <= k <= |p| && p[..k] in d.files then None
    else Some(Disk(d.dirs + Lineage(p), d.files))
  }

  /** Opening a `FileOutputStream` on `p` and copying `bytes` into it: fails on a
      directory, otherwise the file holds exactly `bytes`, whatever it held before. */
  function WriteFile(d: Disk, p: Path, bytes: seq<byte>): (r: Option<Disk>)
    ensures r.Some? <==> !IsDirectory(d, p)
    ensures r.Some? ==> r.value.dirs == d.dirs && p in r.value.files && r.value.files[p] == bytes &&
                        forall q :: q != p ==> (q in r.value.files <==> q in d.files)
    ensures r.Some? ==> forall q :: q != p && q in d.files ==> r.value.files[q] == d.files[q]
  {
    if IsDirectory(d, p) then None else Some(Disk(d.dirs, d.files[p := bytes]))
  }

  /** A disk a filesystem can be in: every ancestor of a directory is a directory,
      and a file is not a directory and sits in a directory, below the root. */
  predicate WellFormed(d: Disk) {
    (forall p :: p in d.dirs ==> Lineage(p) <= d.dirs) &&
    (forall p :: p in d.files ==> p != [] && p !in d.dirs && Lineage(p[..|p| - 1]) <= d.dirs)
  }

  /** The ancestors of an ancestor are ancestors. */
  lemma LineageOfPrefix(p: Path, q: Path)
    requires StartsWith(p, q)
    ensures Lineage(q) <= Lineage(p)
  {
    forall r | r in Lineage(q) ensures r in Lineage(p) {
      assert p[..|r|] == q[..|r|];
    }
  }

  /** `mkdirs` keeps a disk well formed. */
  lemma MkdirsKeepsWellFormed(d: Disk, p: Path)
    requires WellFormed(d) && Mkdirs(d, p).Some?
    ensures WellFormed(Mkdirs(d, p).value)
  {
    var e := Mkdirs(d, p).value;
    forall q | q in e.dirs ensures Lineage(q) <= e.dirs {
      if q !in d.dirs {
        LineageOfPrefix(p, q);
      }
    }
  }

  /** Writing a file into a directory keeps a disk well formed. */
  lemma WriteFileKeepsWellFormed(d: Disk, p: Path, bytes: seq<byte>)
    requires WellFormed(d) && p != [] && IsDirectory(d, p[..|p| - 1])
    requires WriteFile(d, p, bytes).Some?
    ensures WellFormed(WriteFile(d, p, bytes).value)
  {
  }

  /** The disk, updated in place. */
  class FileSystem {
    var dirs: set<Path>
    var files: map<Path, seq<byte>>

    function State(): Disk
      reads this
    {
      Disk(dirs, files)
    }

    constructor (initial: Disk)
      ensures State() == initial
    {
      dirs := initial.dirs;
      files := initial.files;
    }

    method IsDirectoryAt(p: Path) returns (b: bool)
      ensures b == IsDirectory(State(), p)
    {
      b := p == [] || p in dirs;
    }

    method MakeDirectories(p: Path) returns (created: bool)
      modifies this
      ensures created == Mkdirs(old(State()), p).Some?
      ensures State() == if created then Mkdirs(old(State()), p).value else old(State())
    {
      var result := Mkdirs(State(), p);
      created := result.Some?;
      if created {
        dirs := result.value.dirs;
      }
    }

    method Write(p: Path, bytes: seq<byte>) returns (written: bool)
      modifies this
      ensures written == WriteFile(old(State()), p, bytes).Some?
      ensures State() == if written then WriteFile(old(State()), p, bytes).value else old(State())
    {
      written := !(p == [] || p in dirs);
      if written {
        files := files[p := bytes];
      }
    }
  }
}
