/** Streaming a file into a digest: the chunk reader and `get_hash`. */
module Hashing {
  import opened Common
  import opened Files

  /** How many bytes `get_hash` reads for the first-chunk digest, and the
      default chunk size of the reader. */
  const ChunkSize: nat := 1024

  /** A hash object made by `hash_algo()`: `update` absorbs bytes, and the
      digest is the algorithm applied to everything absorbed so far. */
  class HashObject {
    const algo: Bytes -> Digest
    var absorbed: Bytes

    constructor (algo: Bytes -> Digest)
      ensures this.algo == algo && absorbed == []
    {
      this.algo := algo;
      absorbed := [];
    }

    method Update(data: Bytes)
      modifies this
      ensures absorbed == old(absorbed) + data
    {
      absorbed := absorbed + data;
    }

    function Finalize(): Digest
      reads this
    {
      algo(absorbed)
    }
  }

  /** The chunks laid end to end. */
  function Concat(chunks: seq<Bytes>): Bytes
  {
    if chunks == [] then [] else Concat(chunks[..|chunks| - 1]) + chunks[|chunks| - 1]
  }

  /** What `get_hash(path, first_chunk_only)` returns on the snapshot `fs`:
      the digest of the first `ChunkSize` bytes (fewer if the file is
      shorter) or of the whole content, or the `OSError` of `open`. */
  function FileHash(fs: FileSystem, path: Path, firstChunkOnly: bool, algo: Bytes -> Digest): Result<Digest>
  {
    match Open(fs, path)
    case OSError => OSError
    case Ok(content) =>
      Ok(algo(if firstChunkOnly then content[..Min(ChunkSize, |content|)] else content))
  }

  lemma ConcatSnoc(chunks: seq<Bytes>, c: Bytes)
    ensures Concat(chunks + [c]) == Concat(chunks) + c
  {
    assert (chunks + [c])[..|chunks|] == chunks;
  }

  /** The shape of what `chunk_reader` yields: every chunk is non-empty and
      at most `size` long, and all but the last are exactly `size` long. */
  ghost predicate Shaped(chunks: seq<Bytes>, size: int)
  {
    && (forall i | 0 <= i < |chunks| :: chunks[i] != [] && (size > 0 ==> |chunks[i]| <= size))
    && (size > 0 ==> forall i | 0 <= i < |chunks| - 1 :: |chunks[i]| == size)
  }

  lemma ShapedSnoc(chunks: seq<Bytes>, c: Bytes, size: int)
    requires Shaped(chunks, size) && c != [] && (size > 0 ==> |c| <= size)
    requires size > 0 && chunks != [] ==> |chunks[|chunks| - 1]| == size
    ensures Shaped(chunks + [c], size)
  {
  }

  /** `chunk_reader(fobj, chunk_size)`: reads until `read` returns nothing.
      The chunks are `Shaped` and together they are the rest of the file,
      which is left at its end. A zero size yields nothing; a negative size
      reads the rest of the file as one chunk. */
  method ChunkReader(f: BinaryFile, chunkSize: int) returns (chunks: seq<Bytes>)
    requires f.Valid()
    modifies f
    ensures f.Valid()
    ensures Shaped(chunks, chunkSize)
    ensures chunkSize != 0 ==> f.pos == |f.data| && Concat(chunks) == f.data[old(f.pos)..]
    ensures chunkSize == 0 ==> chunks == [] && f.pos == old(f.pos)
  {
    chunks := [];
    while true
      invariant f.Valid() && old(f.pos) <= f.pos
      invariant Concat(chunks) == f.data[old(f.pos)..f.pos]
      invariant Shaped(chunks, chunkSize)
      invariant chunks != [] && (chunkSize < 0 || |chunks[|chunks| - 1]| < chunkSize) ==> f.pos == |f.data|
      invariant chunkSize == 0 ==> chunks == [] && f.pos == old(f.pos)
      decreases |f.data| - f.pos
    {
      ghost var before := f.pos;
      var chunk := f.Read(chunkSize);
      if chunk == [] {
        return;
      }
      assert f.data[old(f.pos)..f.pos] == f.data[old(f.pos)..before] + chunk;
      ConcatSnoc(chunks, chunk);
      ShapedSnoc(chunks, chunk, chunkSize);
      chunks := chunks + [chunk];
    }
  }

  /** `get_hash(filename, first_chunk_only, hash_algo)`: opens the file and
      feeds either its first `ChunkSize` bytes or every chunk of the reader
      to a fresh hash object. */
  method GetHash(filename: Path, firstChunkOnly: bool, fs: FileSystem, hashAlgo: Bytes -> Digest)
    returns (r: Result<Digest>)
    ensures r == FileHash(fs, filename, firstChunkOnly, hashAlgo)
  {
    var hashobj := new HashObject(hashAlgo);
    var contents := Open(fs, filename);
    if contents.OSError? {
      return OSError;
    }
    var f := new BinaryFile(contents.value);
    if firstChunkOnly {
      var head := f.Read(ChunkSize);
      hashobj.Update(head);
      assert hashobj.absorbed == contents.value[..Min(ChunkSize, |contents.value|)];
    } else {
      var chunks := ChunkReader(f, ChunkSize);
      for i := 0 to |chunks|
        invariant hashobj.absorbed == Concat(chunks[..i])
      {
        assert chunks[..i + 1][..i] == chunks[..i];
        hashobj.Update(chunks[i]);
      }
      assert chunks[..|chunks|] == chunks;
      assert hashobj.absorbed == f.data[0..] == contents.value;
    }
    r := Ok(hashobj.Finalize());
  }
}
