/** The local filesystem as the core sees it: regular files with their bytes,
    the directories that exist, and the files whose deletion the operating
    system refuses (a lock held by another process, a missing permission). */
module Disk {
  import opened Common
  import opened Paths

  class FileSystem {
    var files: map<Path, Bytes>
    var dirs: set<Path>
    /** The files on which `unlink` raises `OSError`. */
    var undeletable: set<Path>

    /** Every regular file sits in a directory that exists. */
    ghost predicate Valid()
      reads this
    {
      forall p :: p in files ==> Parent(p) in dirs
    }

    constructor (files: map<Path, Bytes>, dirs: set<Path>, undeletable: set<Path>)
      requires forall p :: p in files ==> Parent(p) in dirs
      ensures Valid()
      ensures this.files == files && this.dirs == dirs && this.undeletable == undeletable
    {
      this.files := files;
      this.dirs := dirs;
      this.undeletable := undeletable;
    }

    /** `Path.mkdir(parents=True, exist_ok=True)`: the directory and every
        missing ancestor exist afterwards. */
    method MakeDirs(dir: Path)
      requires Valid()
      modifies this
      ensures Valid()
      ensures dirs == old(dirs) + Lineage(dir)
      ensures files == old(files) && undeletable == old(undeletable)
    {
      dirs := dirs + Lineage(dir);
    }

    /** `shutil.copy2(src, dst)`, content only: `dst` receives the bytes of
        `src`, replacing whatever file was there. */
    method Copy(src: Path, dst: Path)
      requires Valid()
      requires src in files && Parent(dst) in dirs
      modifies this
      ensures Valid()
      ensures files == old(files)[dst := old(files)[src]]
      ensures dirs == old(dirs) && undeletable == old(undeletable)
    {
      files := files[dst := files[src]];
    }

    /** `Path.unlink()`: removes the file, or raises `OSError` (reported as
        `false`) when there is no such file or the system refuses. */
    method Unlink(p: Path) returns (removed: bool)
      requires Valid()
      modifies this
      ensures Valid()
      ensures removed <==> p in old(files) && p !in undeletable
      ensures files == if removed then old(files) - {p} else old(files)
      ensures dirs == old(dirs) && undeletable == old(undeletable)
    {
      removed := p in files && p !in undeletable;
      if removed {
        files := files - {p};
      }
    }
  }
}
