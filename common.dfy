/** Shared vocabulary of the duplicate finder: bytes, paths, digests and the
    two failure-carrying wrappers used for the filesystem's `OSError`. */
module Common {

  type Byte = bv8
  type Bytes = seq<Byte>

  /** A filesystem path or file name, as text. */
  type Path = string

  /** What `hashobj.digest()` returns: raw bytes. */
  type Digest = Bytes

  datatype Option<T> = None | Some(value: T)

  /** Either a value or the `OSError` that the filesystem raised instead. */
  datatype Result<T> = Ok(value: T) | OSError

  function Min(a: int, b: int): int
  {
    if a <= b then a else b
  }
}
