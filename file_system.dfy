/** The part of the server's filesystem the controllers and the converter touch:
    regular files with their byte sizes, and the set of existing directories. */
module FileSystem {

  /** A file path as directory plus file name; PHP builds these as
      `$dir . DIRECTORY_SEPARATOR . $name`. */
  datatype Path = Path(dir: string, name: string)

  function PathText(p: Path): string {
    p.dir + "/" + p.name
  }

  /** Names that PHP's `glob` with a `*` pattern does not list. */
  predicate IsHidden(name: string) {
    |name| > 0 && name[0] == '.'
  }

  predicate IsSubdirOf(parent: string, d: string) {
    |d| > |parent| + 1 && d[..|parent| + 1] == parent + "/"
  }

  /** `p` is in both maps with the same size, or in neither. */
  predicate AgreeAt(before: map<Path, nat>, after: map<Path, nat>, p: Path) {
    (p in before <==> p in after) && (p in before ==> before[p] == after[p])
  }

  /** Only the paths listed in `touched` may differ between the two states. */
  ghost predicate ChangedOnly(before: map<Path, nat>, after: map<Path, nat>, touched: seq<Path>) {
    forall p :: p !in touched ==> AgreeAt(before, after, p)
  }

  /** Two steps that each change only listed paths change only listed paths. */
  lemma ChangedOnlyCompose(a: map<Path, nat>, b: map<Path, nat>, c: map<Path, nat>, first: seq<Path>, all: seq<Path>)
    requires ChangedOnly(a, b, first) && ChangedOnly(b, c, all)
    requires forall p :: p in first ==> p in all
    ensures ChangedOnly(a, c, all)
  {
    forall p | p !in all ensures AgreeAt(a, c, p) {
      assert AgreeAt(a, b, p) && AgreeAt(b, c, p);
    }
  }

  /** A file written under a new name and then unlinked leaves no trace. */
  lemma StoredCopyRemoved(files: map<Path, nat>, p: Path, size: nat)
    requires p !in files
    ensures files[p := size] - {p} == files
  {
    assert (files[p := size] - {p}).Keys == files.Keys;
  }

  /** An uploaded file as the request carries it: the client's file name, its size
      in bytes, and whether Laravel's `mimes:pdf` rule recognises it as a PDF. */
  datatype Upload = Upload(clientName: string, size: nat, isPdf: bool)

  /** Laravel's `max:51200` on a file: at most 51200 KiB. */
  const MAX_UPLOAD_BYTES: nat := 51200 * 1024

  /** The `storage_path('app/temp')` directory both controllers work in. */
  const CONTROLLER_TEMP := "storage/app/temp"

  class Disk {
    /** Regular files and their sizes in bytes. */
    var files: map<Path, nat>
    var dirs: set<string>

    constructor (files: map<Path, nat>, dirs: set<string>)
      ensures this.files == files && this.dirs == dirs
    {
      this.files := files;
      this.dirs := dirs;
    }

    /** No file and no subdirectory lies directly or indirectly under `d`. */
    predicate IsEmptyDir(d: string)
      reads this
    {
      (forall p :: p in files ==> p.dir != d) && (forall e :: e in dirs ==> !IsSubdirOf(d, e))
    }

    /** A file is created or overwritten: a tool writing its output, `move`, `file_put_contents`. */
    method Write(p: Path, size: nat)
      modifies this
      ensures files == old(files)[p := size] && dirs == old(dirs)
    {
      files := files[p := size];
    }

    /** A process that writes several files at once (Ghostscript splitting a document into pages). */
    method WriteAll(written: map<Path, nat>)
      modifies this
      ensures files == old(files) + written && dirs == old(dirs)
    {
      files := files + written;
    }

    /** `@unlink($p)`: removes the file when it exists and is silent otherwise. */
    method Unlink(p: Path)
      modifies this
      ensures files == old(files) - {p} && dirs == old(dirs)
    {
      files := files - {p};
    }

    /** `mkdir($d, 0755, true)`. Only `d` itself is added: its parents (the
        storage and temporary directories) are taken to exist already, so the
        recursive creation of missing parents is not modelled. */
    method MakeDir(d: string)
      modifies this
      ensures dirs == old(dirs) + {d} && files == old(files)
    {
      dirs := dirs + {d};
    }

    /** `@rmdir($d)`: succeeds only on an existing, empty directory. */
    method RemoveDir(d: string) returns (removed: bool)
      modifies this
      ensures removed <==> d in old(dirs) && old(IsEmptyDir(d))
      ensures dirs == (if removed then old(dirs) - {d} else old(dirs))
      ensures files == old(files)
    {
      removed := d in dirs && IsEmptyDir(d);
      if removed {
        dirs := dirs - {d};
      }
    }

    /** The controllers' `cleanupFiles`: every listed path that exists is unlinked. */
    method DeleteFiles(paths: seq<Path>)
      modifies this
      ensures files == old(files) - (set p | p in paths)
      ensures dirs == old(dirs)
    {
      var i := 0;
      while i < |paths|
        invariant 0 <= i <= |paths|
        invariant files == old(files) - (set p | p in paths[..i])
        invariant dirs == old(dirs)
      {
        if paths[i] in files {
          Unlink(paths[i]);
        }
        assert paths[..i + 1] == paths[..i] + [paths[i]];
        i := i + 1;
      }
      assert paths[..i] == paths;
    }
  }
}
