# Duplicate video finder, modelled in Dafny

`DuplicateFinder` lists the video files of a directory. The walk is
recursive or stops at the top directory. The accepted extensions are
`mp4`, `mov` and `webm`, matched as the text after the last dot of the
name. It then finds exact duplicates in three tiers:

1. Group the real paths of the listed files by size.
2. For sizes shared by two or more files, group by `(size, digest of the
   first 1024 bytes)`.
3. For first-chunk keys shared by two or more files, group by the digest
   of the whole content.

Every full-digest group of two or more is a *bucket*. `find_dups` then
drops from the listed paths every path that appears after the first member
of some bucket. `get_results` reports the number of redundant copies.

The model is organised as follows:

- `Common`: bytes, paths, `Option` and a `Result` whose error is `OSError`.
- `Files`: the file system, as a snapshot that resolves real paths, holds
  contents and marks unreadable files, plus a binary file object with a
  read position.
- `Hashing`: the hash object (`update` absorbs bytes; the digest is the
  algorithm applied to all of them), `chunk_reader` and `get_hash`.
- `Groups`: the insertion-ordered `dict` of lists that the three tiers
  build. A reference filter `Select` is proved equal to each group.
- `Enumeration`: the extension test, `os.path.join` and the listing built
  from the triples `os.walk` yields.
- `Detection`: the three tiers as functions, with the properties of the
  buckets.
- `Finder`: the class `DuplicateFinder`, whose methods update `videosList`
  and `buckets`. Each is proved against the functions above. The three
  loops of `pure_dups`, their inner loops, and the flattening loop of
  `find_dups` are separate methods (`SizeTier`, `SmallHashTier` with
  `SmallHashGroup`, `FullHashTier` with `FullHashGroup`, `FlattenDups`),
  called in the source's order.

The file system is read through one snapshot per tier (`Timeline`). Files
may therefore change between tiers, as the source's comments anticipate.
Within a tier, the same path always reads the same.

Two behaviours of the source are kept as written:

- Buckets hold `realpath` results, while the list holds the paths the walk
  joined. Only listed paths that are their own resolved target can be
  removed (`Finder.OnlyResolvedPathsRemoved`). When no listed path is
  canonical, as with a relative directory, nothing is removed
  (`Finder.UncanonicalListingKept`).
- A file named exactly `mp4`, `mov` or `webm`, without a dot, is accepted
  (`Enumeration.DotlessAccepted`). The comparison is case-sensitive
  (`Enumeration.UpperCaseRefused`).

## Model

| member | source | states |
|---|---|---|
| Files.BinaryFile.Read | DuplicateFinder.py:108 | `read(size)` returns the next `size` bytes, or fewer at the end of the file. A negative size returns the rest. The position advances past what was returned. |
| Hashing.HashObject.Update | DuplicateFinder.py:128 | `update` appends the bytes to what the hash object has absorbed. |
| Hashing.ChunkReader | DuplicateFinder.py:103-111 | The chunks are `Shaped`: every chunk is non-empty and at most `chunk_size` long, and all but the last are exactly `chunk_size` long. Together they are the rest of the file and leave it at its end. A size of 0 yields nothing. |
| Hashing.GetHash | DuplicateFinder.py:113-129 | The digest is of the first 1024 bytes (all of a shorter file) or of the whole content, fed chunk by chunk. `OSError` is returned exactly when `open` fails. |
| Groups.Empty | DuplicateFinder.py:136-138 | A fresh `defaultdict`/`dict` has no keys and no lists. |
| Groups.Append | DuplicateFinder.py:178-181 | Appending under a key keeps the dict well formed. A new key goes last in key order, and only that key's list changes, gaining the value at its end. |
| Groups.GroupAll | DuplicateFinder.py:140-149 | Grouping a sequence keeps the dict well formed: distinct keys, each with a non-empty list. |
| Groups.GroupAllSelects | DuplicateFinder.py:140-149 | Each group equals the in-order filter of the inputs classified under its key. A key is present iff that filter is non-empty. |
| Groups.SelectMember | DuplicateFinder.py:149 | An input classified under a key lands in that key's group. |
| Groups.SelectOrigin | DuplicateFinder.py:149 | Every group member comes from some input classified under that key. |
| Groups.SkipUnclassified | DuplicateFinder.py:146-148 | An input that raises `OSError` (classified as nothing) leaves the grouping unchanged wherever it occurs. |
| Groups.TaggedMember | DuplicateFinder.py:152-156 | The `(size, filename)` pairs the inner loop visits are exactly its key with each member. |
| Groups.SurvivorsMember | DuplicateFinder.py:152-156 | The second tier visits `(k, v)` iff `v` is in the group of `k` and that group has two or more members. |
| Groups.SurvivingValueFrom | DuplicateFinder.py:166-171 | The third tier visits every member of every first-chunk group of two or more. |
| Groups.SurvivingValueOrigin | DuplicateFinder.py:166-171 | The third tier visits nothing else. |
| Groups.LongListsKeyed | DuplicateFinder.py:183 | The kept lists correspond one to one, in order, to keys of the dict. Each is that key's group and has two or more members. |
| Groups.LongKeysDistinct | DuplicateFinder.py:183 | The keys of the kept lists are distinct. |
| Groups.LongListIsSelect | DuplicateFinder.py:183 | Each kept list is the in-order filter of the inputs classified under one key, and has two or more members. |
| Groups.LongListsApart | DuplicateFinder.py:183 | Two different kept lists come from two different keys. |
| Groups.LongListsHas | DuplicateFinder.py:183 | Every group of two or more members is kept. |
| Enumeration.Split | DuplicateFinder.py:75 | `split` yields at least one field, and no field contains the separator. |
| Enumeration.SplitJoin | DuplicateFinder.py:75 | Joining the fields of `split` with the separator gives back the name. |
| Enumeration.ExtensionSuffix | DuplicateFinder.py:75 | `name.split(".")[-1]` is a suffix of the name. |
| Enumeration.ExtensionBoundary | DuplicateFinder.py:75 | `name.split(".")[-1]` is the whole name or is preceded by a dot. |
| Enumeration.ExtensionAfterLastDot | DuplicateFinder.py:75 | `name.split(".")[-1]` is the text after the last dot, or the whole name when there is none. |
| Enumeration.AcceptedIff | DuplicateFinder.py:75 | A name is accepted iff the text after its last dot is exactly `mp4`, `mov` or `webm`. |
| Enumeration.AcceptedSuffix | DuplicateFinder.py:75 | For `stem.e` with no dot in `e`, acceptance depends only on `e` being one of the types. |
| Enumeration.UpperCaseRefused | DuplicateFinder.py:75 | `name.MP4` is not accepted: the test is case-sensitive. |
| Enumeration.DotlessAccepted | DuplicateFinder.py:75 | A name without a dot is accepted iff it is itself one of the types. |
| Enumeration.PathJoin | DuplicateFinder.py:73 | `path.join(dir, f)` ends with `f`. It starts with `dir` unless `f` is absolute. |
| Enumeration.AcceptingMember | DuplicateFinder.py:72-76 | The comprehension lists exactly the joined paths of the accepted names. |
| Enumeration.ListingOfMember | DuplicateFinder.py:71-77 | Extending over the walk lists exactly what some step lists. |
| Enumeration.ListingMember | DuplicateFinder.py:71-79 | A path is listed iff it joins an accepted file name to the directory of a walk step. Without recursion, that step is the top directory. |
| Detection.SizeGroupMember | DuplicateFinder.py:140-149 | A member of the size group of `s` has size `s` and is the `realpath` of some listed path. |
| Detection.SmallHashGroupMember | DuplicateFinder.py:156-162 | A member of the group of `(s, h)` was visited with size `s`, and its first-chunk digest is `h`. |
| Detection.FullHashGroupMember | DuplicateFinder.py:171-181 | A member of the group of digest `d` was visited by the third tier, and its full digest is `d`. |
| Detection.FullHashedIsResolved | DuplicateFinder.py:140-169 | Every path the third tier visits is the `realpath` of some listed path. |
| Detection.BucketMemberOrigin | DuplicateFinder.py:166-181 | A bucket member was visited by the third tier, and its full digest could be computed. |
| Detection.BucketIsOneDigest | DuplicateFinder.py:171-183 | Every bucket has two or more members, all with the same full digest. It is every third-tier file with that digest, in visiting order. |
| Detection.BucketsDisjoint | DuplicateFinder.py:171-183 | No path is in two buckets. |
| Detection.FullHashedOrigin | DuplicateFinder.py:140-169 | A path reaching the third tier has a readable size shared with another listed file. It also has a first-chunk digest whose `(size, digest)` key is shared. |
| Detection.PrunedBySize | DuplicateFinder.py:152-154 | A file whose size no other listed file has never reaches the full-digest tier and is in no bucket. |
| Detection.PrunedBySmallHash | DuplicateFinder.py:166-169 | A file whose `(size, first-chunk digest)` is unique never reaches the full-digest tier and is in no bucket. |
| Detection.FailuresExcluded | DuplicateFinder.py:141-176 | A file whose size or first-chunk digest fails is not fully hashed. No file whose size or either digest fails is in a bucket. |
| Detection.UnresolvableSkipped | DuplicateFinder.py:141-148 | Removing a listed path whose `realpath` or `getsize` fails changes neither the third-tier order nor the buckets. |
| Detection.AgreeingFilesShareBucket | DuplicateFinder.py:140-183 | Two distinct resolved files with the same size, first-chunk digest and full digest end up in the same bucket. |
| Detection.IdenticalFilesShareBucket | DuplicateFinder.py:140-183 | On a file system that does not change, two distinct readable resolved files with equal contents share a bucket. |
| Finder.RedundantMember | DuplicateFinder.py:202-205 | `flattened_dups` holds exactly the members after the first of each bucket. |
| Finder.Kept | DuplicateFinder.py:207-210 | Filtering never lengthens the list. |
| Finder.KeptMember | DuplicateFinder.py:207-210 | A path is kept iff it is listed and not flagged. |
| Finder.KeptConcat | DuplicateFinder.py:210 | Filtering a concatenation filters each part, so order is preserved. |
| Finder.KeptUnflagged | DuplicateFinder.py:207-210 | When nothing listed is flagged, the list is unchanged. |
| Finder.DupBucketsLong | DuplicateFinder.py:218 | Every bucket reported has two or more members. |
| Finder.DupBucketsKeepsLong | DuplicateFinder.py:218 | When every bucket has two or more members, the report's filter changes nothing. |
| Finder.CountIsRedundantCopies | DuplicateFinder.py:218-220 | The sum of the bucket lengths minus the number of buckets equals the number of redundant copies. It is at least the number of buckets. |
| Finder.ReportShowsEveryBucket | DuplicateFinder.py:183-220 | The report's filter keeps every bucket that `pure_dups` produced. |
| Finder.OnlyResolvedPathsRemoved | DuplicateFinder.py:140-210 | A listed path that `find_dups` removes is the `realpath` of some listed path. |
| Finder.UncanonicalListingKept | DuplicateFinder.py:140-210 | When no listed path is the resolved target of a listed path, `find_dups` removes nothing. |
| Finder.BucketHeadKept | DuplicateFinder.py:202-210 | A bucket's first member stays listed when it is listed under that name and not repeated in its bucket. |
| Finder.RedundantCopyRemoved | DuplicateFinder.py:202-210 | Every member after the first of a bucket is removed from the list. |
| Finder.FlattenDups | DuplicateFinder.py:202-205 | The loops collect the members after the first of each bucket, bucket by bucket. |
| Finder.SizeTier | DuplicateFinder.py:140-149 | The first loop groups each resolvable, sizable listed path by size, under its real path. The others are skipped. |
| Finder.SmallHashGroup | DuplicateFinder.py:156-162 | The inner loop of the second tier adds each readable member of one size group under `(size, first-chunk digest)`, in order. |
| Finder.SmallHashTier | DuplicateFinder.py:151-162 | The second loop groups the members of shared sizes by `(size, first-chunk digest)` and skips unreadable files. |
| Finder.FullHashGroup | DuplicateFinder.py:171-181 | The inner loop of the third tier adds each readable member of one first-chunk group under its full digest, in order. |
| Finder.FullHashTier | DuplicateFinder.py:164-181 | The third loop groups the members of shared first-chunk keys by full digest and skips unreadable files. |
| Finder.DuplicateFinder.constructor | DuplicateFinder.py:41-63 | The constructor keeps the directory and the recursion flag, sets the types to `mp4`, `mov`, `webm`, and starts with empty lists. |
| Finder.DuplicateFinder.GenerateVideosList | DuplicateFinder.py:65-80 | The result is the listing of every walk step, or of the first step only when not recursive. |
| Finder.DuplicateFinder.PureDups | DuplicateFinder.py:131-184 | `buckets` becomes the full-digest groups of two or more, computed from the listed videos through the three tiers. |
| Finder.DuplicateFinder.FindDups | DuplicateFinder.py:192-212 | `videosList` becomes the listing without the redundant copies, and `buckets` the exact duplicates of the listing. |
| Finder.DuplicateFinder.GetResults | DuplicateFinder.py:214-220 | The printed count equals the number of redundant copies and is at least the number of buckets listed. |

## Left out

- `get_duration` is not modelled: it runs `ffprobe` in a subprocess and parses a float.
- `timeit` is not modelled: it only measures wall-clock time and prints it.
- `advanced_dups` is not modelled: it only raises `NotImplementedError`, and its call in `find_dups` is commented out.
- The `__main__` block is not modelled: it only constructs the finder on a fixed folder.
- Printing is not modelled. `GetResults` returns the count and the buckets `get_results` prints, without the formatting.
- The `TypeError` checks in the constructor are not modelled, because Dafny's types already rule out a non-string directory or a non-boolean flag.
- Real file-system access is not modelled. `os.walk`, `path.realpath`, `path.getsize` and `open` read supplied values:
  - `os.walk` is the sequence of `(dirpath, dirnames, filenames)` triples it would yield for the directory.
  - The other three read a file-system snapshot.
  - An `OSError` raised while reading an opened file is folded into the failure of `open`.
  - Symlink resolution is a given map, not computed.
- SHA-1 is not modelled: the hash algorithm is an arbitrary function from bytes to digests. No property relies on collision resistance; in particular, two files in one bucket are known to share a digest, not content.
- Hashing.ChunkReader: the generator is modelled as collecting its chunks before `get_hash` absorbs them, in the same order. The digest is the same; the laziness is not modelled.
- Detection.AgreeingFilesShareBucket: completeness is stated for two distinct resolved paths. Two listed paths resolving to the same file are appended twice to one group, which the model also does but no lemma describes.
