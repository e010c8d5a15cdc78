/** The server's filesystem: file contents by path. Directories are created on demand and are not modelled. */
module Disk {

  newtype byte = x: int | 0 <= x < 256

  type Bytes = seq<byte>

  class FileSystem {
    var files: map<string, Bytes>

    constructor (initial: map<string, Bytes>)
      ensures files == initial
    {
      files := initial;
    }

    /** `fs.writeFileSync(path, data)`: creates or replaces the file. */
    method Write(path: string, data: Bytes)
      modifies this
      ensures files == old(files)[path := data]
    {
      files := files[path := data];
    }

    /** Files another process wrote meanwhile: each one is created or replaced. */
    method WriteAll(written: map<string, Bytes>)
      modifies this
      ensures files == old(files) + written
    {
      files := files + written;
    }

    /** `fs.unlink(path)` of an existing file; `ok` is whether the removal succeeded. */
    method Unlink(path: string, ok: bool)
      modifies this
      ensures files == if ok then old(files) - {path} else old(files)
    {
      if ok {
        files := files - {path};
      }
    }
  }
}
