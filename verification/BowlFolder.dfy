/** The folder a bowl writes to: a map from paths to contents. */
module BowlFolder {
  import opened Common

  type Path = string
  type FileSystem = map<Path, Bytes>

  function Lookup(files: FileSystem, p: Path): Option<Bytes> {
    if p in files then Some(files[p]) else None
  }

  class Folder {
    var files: FileSystem

    constructor (files: FileSystem)
      ensures this.files == files
    {
      this.files := files;
    }

    /** The destination is truncated before the source is read, so they must differ. */
    method Copy(src: Path, dest: Path)
      requires src in files && src != dest
      modifies this
      ensures files == old(files)[dest := old(files)[src]]
    {
      files := files[dest := []];
      files := files[dest := files[src]];
    }

    /** The destination is removed before the rename. */
    method Move(src: Path, dest: Path)
      requires src in files && src != dest
      modifies this
      ensures files == old(files)[dest := old(files)[src]] - {src}
    {
      files := files - {dest};
      files := files[dest := files[src]] - {src};
    }

    method Write(dest: Path, data: Bytes)
      modifies this
      ensures files == old(files)[dest := data]
    {
      files := files[dest := data];
    }

    method Remove(p: Path)
      modifies this
      ensures files == old(files) - {p}
    {
      files := files - {p};
    }
  }
}
