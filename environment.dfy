/**
 * The world the loader acts on: an abstract file system, the std::filesystem
 * path helpers whose behaviour depends on the machine, and the clock.
 */
module Environment {
  import opened Wrappers
  import opened Text

  type Path = string

  /**
   * The path helpers the loader calls but whose results depend on the host:
   * normalizePath and resolvePathWithFallbacks (PathUtils.cpp), fs::path's
   * filename() and parent_path(), fs::absolute, fs::relative (None when it
   * throws) and validateHKSForBackup, whose body is not part of this model.
   */
  datatype Host = Host(
    normalizePath: Path -> Path,
    resolvePathWithFallbacks: (Path, Path) -> Path,
    fileName: Path -> string,
    parentPath: Path -> Path,
    absolute: Path -> Path,
    relative: (Path, Path) -> Option<Path>,
    validateHKSForBackup: Path -> bool)

  /** The broken-down local time that strftime formats. */
  datatype DateTime = DateTime(year: nat, month: nat, day: nat, hour: nat, minute: nat, second: nat) {
    /** The ranges localtime_s produces, restricted to four-digit years. */
    predicate Valid() {
      1000 <= year <= 9999 && 1 <= month <= 12 && 1 <= day <= 31 &&
      hour <= 23 && minute <= 59 && second <= 60
    }
  }

  /** `p` is `dir` itself or lies somewhere below it. */
  predicate Under(p: Path, dir: Path) {
    p == dir || StartsWith(p, dir + "/")
  }

  /** `p` is present in both maps or in neither, with the same content. */
  predicate SameAt(a: map<Path, string>, b: map<Path, string>, p: Path) {
    (p in a <==> p in b) && (p in a ==> a[p] == b[p])
  }

  /** What a file system holds at one moment: its files with their contents and its directories. */
  datatype Disk = Disk(files: map<Path, string>, dirs: set<Path>)

  /** fs::exists on those contents. */
  predicate ExistsOn(d: Disk, p: Path) {
    p in d.files || p in d.dirs
  }

  /** The files fs::remove_all(dir) leaves: those not below `dir`. */
  function FilesOutside(files: map<Path, string>, dir: Path): map<Path, string> {
    map p | p in files && !Under(p, dir) :: files[p]
  }

  /** The directories fs::remove_all(dir) leaves. */
  function DirsOutside(dirs: set<Path>, dir: Path): set<Path> {
    set p | p in dirs && !Under(p, dir)
  }

  /**
   * The file system: regular files with their contents and directories.
   * Failures are modelled by two fixed sets of paths: operations that create,
   * write, copy onto or remove a path in `readOnly` throw, and opening a path in
   * `unreadable` for reading fails.
   */
  class FileSystem {
    var files: map<Path, string>
    var dirs: set<Path>
    const readOnly: set<Path>
    const unreadable: set<Path>

    /** A path is either a regular file or a directory, never both. */
    ghost predicate Valid()
      reads this
    {
      files.Keys !! dirs
    }

    constructor (files: map<Path, string>, dirs: set<Path>, readOnly: set<Path>, unreadable: set<Path>)
      requires files.Keys !! dirs
      ensures Valid()
      ensures this.files == files && this.dirs == dirs
      ensures this.readOnly == readOnly && this.unreadable == unreadable
    {
      this.files := files;
      this.dirs := dirs;
      this.readOnly := readOnly;
      this.unreadable := unreadable;
    }

    /** The current contents, as a value. */
    function Contents(): Disk
      reads this
    {
      Disk(files, dirs)
    }

    /** Readable, for contents `d` on this file system. */
    predicate ReadableOn(d: Disk, p: Path) {
      p in d.files && p !in unreadable
    }

    /** Writable, for contents `d` on this file system. */
    predicate WritableOn(d: Disk, p: Path) {
      p !in readOnly && p !in d.dirs
    }

    /** Removable, for contents `d` on this file system. */
    predicate RemovableOn(d: Disk, p: Path) {
      p !in readOnly && p !in d.dirs
    }

    /** DirectoryCreationFails, for contents `d` on this file system. */
    predicate DirectoryCreationFailsOn(d: Disk, dir: Path) {
      dir !in d.dirs && (dir in readOnly || dir in d.files)
    }

    /** fs::exists */
    predicate Exists(p: Path)
      reads this
    {
      p in files || p in dirs
    }

    /** fs::is_regular_file */
    predicate IsRegularFile(p: Path)
      reads this
    {
      p in files
    }

    /** fs::remove succeeds on `p`: a directory is treated as not removable. */
    predicate Removable(p: Path)
      reads this
    {
      p !in readOnly && p !in dirs
    }

    /** Opening `p` for reading succeeds. */
    predicate Readable(p: Path)
      reads this
    {
      p in files && p !in unreadable
    }

    /** Opening `p` for writing succeeds. */
    predicate Writable(p: Path)
      reads this
    {
      p !in readOnly && p !in dirs
    }

    /** fs::create_directories(d) would throw. */
    predicate DirectoryCreationFails(d: Path)
      reads this
    {
      d !in dirs && (d in readOnly || d in files)
    }

    /** An ifstream opened on `p` and read to the end. */
    method ReadFile(p: Path) returns (r: Option<string>)
      ensures r.Some? <==> Readable(p)
      ensures r.Some? ==> r.value == files[p]
    {
      if p in files && p !in unreadable {
        r := Some(files[p]);
      } else {
        r := None;
      }
    }

    /** An ofstream opened on `p` (truncating) and `content` written to it. */
    method WriteFile(p: Path, content: string) returns (ok: bool)
      requires Valid()
      modifies this
      ensures Valid()
      ensures ok == old(Writable(p))
      ensures files == if ok then old(files)[p := content] else old(files)
      ensures dirs == old(dirs)
    {
      ok := p !in readOnly && p !in dirs;
      if ok {
        files := files[p := content];
      }
    }

    /** fs::remove(p), reporting whether it threw. */
    method Remove(p: Path) returns (ok: bool)
      requires Valid()
      modifies this
      ensures Valid()
      ensures ok == old(Removable(p))
      ensures files == if ok then old(files) - {p} else old(files)
      ensures dirs == old(dirs)
    {
      ok := p !in readOnly && p !in dirs;
      if ok {
        files := files - {p};
      }
    }

    /**
     * fs::remove_all(dir) throws on contents `d`: some existing path at or
     * below `dir` cannot be removed.
     */
    predicate RemoveAllFailsOn(d: Disk, dir: Path) {
      exists p :: p in readOnly && Under(p, dir) && ExistsOn(d, p)
    }

    /**
     * fs::remove_all(d): `d` and everything below it disappear, unless a
     * read-only path among them makes it throw; then nothing is removed.
     */
    method RemoveAll(d: Path) returns (ok: bool)
      requires Valid()
      modifies this
      ensures Valid()
      ensures ok == !RemoveAllFailsOn(old(Contents()), d)
      ensures files == if ok then FilesOutside(old(files), d) else old(files)
      ensures dirs == if ok then DirsOutside(old(dirs), d) else old(dirs)
    {
      ok := !exists p | p in readOnly :: Under(p, d) && (p in files || p in dirs);
      if ok {
        files := FilesOutside(files, d);
        dirs := DirsOutside(dirs, d);
      }
    }

    /** fs::create_directories(d); the missing parents it also creates are not recorded. */
    method CreateDirectories(d: Path) returns (ok: bool)
      requires Valid()
      modifies this
      ensures Valid()
      ensures ok == !old(DirectoryCreationFails(d))
      ensures dirs == if ok then old(dirs) + {d} else old(dirs)
      ensures files == old(files)
    {
      ok := !(d !in dirs && (d in readOnly || d in files));
      if ok {
        dirs := dirs + {d};
      }
    }

    /** fs::copy_file(src, dst, overwrite_existing). */
    method CopyFile(src: Path, dst: Path) returns (ok: bool)
      requires Valid()
      modifies this
      ensures Valid()
      ensures ok == old(Readable(src) && Writable(dst))
      ensures files == if ok then old(files)[dst := old(files)[src]] else old(files)
      ensures dirs == old(dirs)
    {
      ok := src in files && src !in unreadable && dst !in readOnly && dst !in dirs;
      if ok {
        files := files[dst := files[src]];
      }
    }
  }
}
