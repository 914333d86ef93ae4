/** The filesystem collaborator. The detector only ever asks it to resolve a
    path, to report a size and to open a file for reading; each of these may
    raise `OSError`. A `FileSystem` value is one snapshot of the answers. */
module Files {
  import opened Common

  /** `resolved` maps each path that `os.path.realpath` can resolve to its
      canonical target; `files` holds the regular files and their bytes;
      `unreadable` are files that exist (so `stat` works) but cannot be opened. */
  datatype FileSystem = FileSystem(resolved: map<Path, Path>, files: map<Path, Bytes>, unreadable: set<Path>)

  /** `os.path.realpath(p)`. */
  function RealPath(fs: FileSystem, p: Path): Result<Path>
  {
    if p in fs.resolved then Ok(fs.resolved[p]) else OSError
  }

  /** `os.path.getsize(p)`: the length of the file's content. */
  function GetSize(fs: FileSystem, p: Path): Result<nat>
  {
    if p in fs.files then Ok(|fs.files[p]|) else OSError
  }

  /** `open(p, "rb")`: the bytes the opened file will deliver. */
  function Open(fs: FileSystem, p: Path): Result<Bytes>
  {
    if p in fs.files && p !in fs.unreadable then Ok(fs.files[p]) else OSError
  }

  /** An open binary file: its bytes and the read cursor that `read` advances. */
  class BinaryFile {
    const data: Bytes
    var pos: nat

    ghost predicate Valid()
      reads this
    {
      pos <= |data|
    }

    constructor (data: Bytes)
      ensures Valid()
      ensures this.data == data && pos == 0
    {
      this.data := data;
      pos := 0;
    }

    /** `read(size)`: at most `size` bytes from the cursor on, or everything
        left when `size` is negative; the empty result means end of file. */
    method Read(size: int) returns (chunk: Bytes)
      requires Valid()
      modifies this
      ensures Valid()
      ensures pos == if size < 0 then |data| else Min(|data|, old(pos) + size)
      ensures chunk == data[old(pos)..pos]
    {
      var stop := if size < 0 then |data| else Min(|data|, pos + size);
      chunk := data[pos..stop];
      pos := stop;
    }
  }
}
