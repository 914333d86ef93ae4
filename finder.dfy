/** The `DuplicateFinder` object: its state, the listing, the three-tier
    detection loop, the list reduction after detection and the reported
    count. */
module Finder {
  import opened Common
  import opened Files
  import opened Hashing
  import opened Groups
  import opened Enumeration
  import opened Detection

  /** `bucket[1:]`: the redundant copies of one bucket. */
  function Tail(bucket: seq<Path>): seq<Path>
  {
    if bucket == [] then [] else bucket[1..]
  }

  /** `flattened_dups`: the members after the first of every bucket, bucket
      by bucket. */
  function Redundant(buckets: seq<seq<Path>>): seq<Path>
  {
    if buckets == [] then [] else Redundant(buckets[..|buckets| - 1]) + Tail(buckets[|buckets| - 1])
  }

  lemma {:induction false} RedundantMember(buckets: seq<seq<Path>>, p: Path)
    ensures p in Redundant(buckets) <==> exists i :: 0 <= i < |buckets| && p in Tail(buckets[i])
  {
    if buckets != [] {
      var n := |buckets| - 1;
      RedundantMember(buckets[..n], p);
      if p in Redundant(buckets[..n]) {
        var i :| 0 <= i < n && p in Tail(buckets[..n][i]);
        assert buckets[..n][i] == buckets[i];
      } else if p !in Tail(buckets[n]) {
        forall i | 0 <= i < |buckets| ensures p !in Tail(buckets[i]) {
          if i < n {
            assert buckets[..n][i] == buckets[i];
          }
        }
      }
    }
  }

  /** `list(filter(to_keep, videos))` with `to_keep(p) = p not in flagged`. */
  function Kept(videos: seq<Path>, flagged: seq<Path>): (r: seq<Path>)
    ensures |r| <= |videos|
  {
    if videos == [] then []
    else
      var p := videos[|videos| - 1];
      Kept(videos[..|videos| - 1], flagged) + if p in flagged then [] else [p]
  }

  /** A path is kept iff it is listed and not flagged. */
  lemma {:induction false} KeptMember(videos: seq<Path>, flagged: seq<Path>, p: Path)
    ensures p in Kept(videos, flagged) <==> p in videos && p !in flagged
  {
    if videos != [] {
      var n := |videos| - 1;
      KeptMember(videos[..n], flagged, p);
      assert videos == videos[..n] + [videos[n]];
    }
  }

  /** The filter keeps the order of the list: filtering distributes over
      concatenation. */
  lemma {:induction false} KeptConcat(a: seq<Path>, b: seq<Path>, flagged: seq<Path>)
    ensures Kept(a + b, flagged) == Kept(a, flagged) + Kept(b, flagged)
  {
    if b != [] {
      var n := |b| - 1;
      var last := if b[n] in flagged then [] else [b[n]];
      KeptConcat(a, b[..n], flagged);
      assert (a + b)[..|a + b| - 1] == a + b[..n];
      assert (a + b)[|a + b| - 1] == b[n];
      calc {
        Kept(a + b, flagged);
        Kept(a + b[..n], flagged) + last;
        Kept(a, flagged) + Kept(b[..n], flagged) + last;
        Kept(a, flagged) + (Kept(b[..n], flagged) + last);
        Kept(a, flagged) + Kept(b, flagged);
      }
    } else {
      assert a + b == a;
    }
  }

  /** A list none of whose paths is flagged comes through unchanged. */
  lemma {:induction false} KeptUnflagged(videos: seq<Path>, flagged: seq<Path>)
    requires forall p | p in videos :: p !in flagged
    ensures Kept(videos, flagged) == videos
  {
    if videos != [] {
      var n := |videos| - 1;
      forall p | p in videos[..n] ensures p !in flagged {
        assert p in videos;
      }
      KeptUnflagged(videos[..n], flagged);
      assert videos == videos[..n] + [videos[n]];
    }
  }

  /** `[bucket for bucket in buckets if len(bucket) > 1]`. */
  function DupBuckets(buckets: seq<seq<Path>>): seq<seq<Path>>
  {
    if buckets == [] then []
    else
      var b := buckets[|buckets| - 1];
      DupBuckets(buckets[..|buckets| - 1]) + if |b| > 1 then [b] else []
  }

  /** `sum([len(bucket) for bucket in buckets])`. */
  function TotalLength(buckets: seq<seq<Path>>): nat
  {
    if buckets == [] then 0 else TotalLength(buckets[..|buckets| - 1]) + |buckets[|buckets| - 1]|
  }

  /** The report's filter leaves only buckets of two or more. */
  lemma {:induction false} DupBucketsLong(buckets: seq<seq<Path>>)
    ensures forall i | 0 <= i < |DupBuckets(buckets)| :: |DupBuckets(buckets)[i]| >= 2
  {
    if buckets != [] {
      DupBucketsLong(buckets[..|buckets| - 1]);
    }
  }

  /** The report's filter changes nothing when every bucket has two or more. */
  lemma {:induction false} DupBucketsKeepsLong(buckets: seq<seq<Path>>)
    requires forall i | 0 <= i < |buckets| :: |buckets[i]| >= 2
    ensures DupBuckets(buckets) == buckets
  {
    if buckets != [] {
      var n := |buckets| - 1;
      DupBucketsKeepsLong(buckets[..n]);
      assert buckets == buckets[..n] + [buckets[n]];
    }
  }

  /** The reported count, total members minus buckets, is the number of
      redundant copies (one per member after each bucket's first), and when
      every bucket has two members or more it is at least the number of
      buckets. */
  lemma {:induction false} CountIsRedundantCopies(buckets: seq<seq<Path>>)
    requires forall i | 0 <= i < |buckets| :: |buckets[i]| >= 1
    ensures TotalLength(buckets) - |buckets| == |Redundant(buckets)|
    ensures (forall i | 0 <= i < |buckets| :: |buckets[i]| >= 2) ==> |Redundant(buckets)| >= |buckets|
  {
    if buckets != [] {
      CountIsRedundantCopies(buckets[..|buckets| - 1]);
    }
  }

  /** Every bucket the detector stores has two members or more, so the
      report's filter shows them all. */
  lemma ReportShowsEveryBucket(videos: seq<Path>, t: Timeline, algo: Bytes -> Digest)
    ensures DupBuckets(ExactDuplicates(videos, t, algo)) == ExactDuplicates(videos, t, algo)
  {
    var bs := ExactDuplicates(videos, t, algo);
    forall i | 0 <= i < |bs| ensures |bs[i]| >= 2 {
      BucketIsOneDigest(videos, t, algo, i);
    }
    DupBucketsKeepsLong(bs);
  }

  /** The reduction only removes paths that are the resolved target of some
      listed path: buckets hold `realpath` results while the list holds the
      joined paths of the walk, so a listed path that is not canonical is
      never removed. */
  lemma OnlyResolvedPathsRemoved(videos: seq<Path>, t: Timeline, algo: Bytes -> Digest, x: Path)
    requires x in videos && x !in Kept(videos, Redundant(ExactDuplicates(videos, t, algo)))
    ensures exists y :: y in videos && RealPath(t.sizing, y) == Ok(x)
  {
    var bs := ExactDuplicates(videos, t, algo);
    KeptMember(videos, Redundant(bs), x);
    RedundantMember(bs, x);
    var i :| 0 <= i < |bs| && x in Tail(bs[i]);
    assert x in bs[i];
    BucketMemberOrigin(videos, t, algo, bs[i], x);
    FullHashedIsResolved(videos, t, algo, x);
  }

  /** A bucket's first member survives the reduction when it is listed
      under its resolved name and is not repeated inside its own bucket:
      buckets are disjoint, so no other bucket flags it. */
  lemma BucketHeadKept(videos: seq<Path>, t: Timeline, algo: Bytes -> Digest, i: nat)
    requires i < |ExactDuplicates(videos, t, algo)|
    requires var b := ExactDuplicates(videos, t, algo)[i]; b != [] && b[0] in videos && b[0] !in b[1..]
    ensures ExactDuplicates(videos, t, algo)[i][0] in Kept(videos, Redundant(ExactDuplicates(videos, t, algo)))
  {
    var bs := ExactDuplicates(videos, t, algo);
    var p := bs[i][0];
    RedundantMember(bs, p);
    forall j | 0 <= j < |bs| ensures p !in Tail(bs[j]) {
      if j != i {
        if j < i {
          BucketsDisjoint(videos, t, algo, j, i);
        } else {
          BucketsDisjoint(videos, t, algo, i, j);
        }
        assert forall y | y in Tail(bs[j]) :: y in bs[j];
      }
    }
    KeptMember(videos, Redundant(bs), p);
  }

  /** Every member of a bucket after its first is dropped from the list. */
  lemma RedundantCopyRemoved(videos: seq<Path>, t: Timeline, algo: Bytes -> Digest, i: nat, k: nat)
    requires i < |ExactDuplicates(videos, t, algo)| && 1 <= k < |ExactDuplicates(videos, t, algo)[i]|
    ensures ExactDuplicates(videos, t, algo)[i][k] !in Kept(videos, Redundant(ExactDuplicates(videos, t, algo)))
  {
    var bs := ExactDuplicates(videos, t, algo);
    assert bs[i][k] == Tail(bs[i])[k - 1];
    RedundantMember(bs, bs[i][k]);
    KeptMember(videos, Redundant(bs), bs[i][k]);
  }

  /** When no listed path is the resolved target of a listed path (as with
      a relative video directory, whose joined paths are never canonical),
      the reduction removes nothing. */
  lemma UncanonicalListingKept(videos: seq<Path>, t: Timeline, algo: Bytes -> Digest)
    requires forall y | y in videos :: RealPath(t.sizing, y).Ok? ==> RealPath(t.sizing, y).value !in videos
    ensures Kept(videos, Redundant(ExactDuplicates(videos, t, algo))) == videos
  {
    var flagged := Redundant(ExactDuplicates(videos, t, algo));
    forall x | x in videos ensures x !in flagged {
      KeptMember(videos, flagged, x);
      if x !in Kept(videos, flagged) {
        OnlyResolvedPathsRemoved(videos, t, algo, x);
      }
    }
    KeptUnflagged(videos, flagged);
  }

  /** The list comprehension of `find_dups` that collects every bucket's
      members after the first. */
  method FlattenDups(bs: seq<seq<Path>>) returns (flattenedDups: seq<Path>)
    ensures flattenedDups == Redundant(bs)
  {
    flattenedDups := [];
    for i := 0 to |bs|
      invariant flattenedDups == Redundant(bs[..i])
    {
      assert bs[..i + 1][..i] == bs[..i];
      ghost var visited := Redundant(bs[..i]);
      var rest := Tail(bs[i]);
      assert visited + rest[..0] == visited;
      for j := 0 to |rest|
        invariant flattenedDups == visited + rest[..j]
      {
        PrefixSnoc(visited, rest, j);
        flattenedDups := flattenedDups + [rest[j]];
      }
      assert rest[..|rest|] == rest;
    }
    assert bs[..|bs|] == bs;
  }

  /** First tier of `pure_dups`: every listed path whose real path and
      size can be read goes into the group of its size, under its real
      path; the others are skipped. */
  method SizeTier(videos: seq<Path>, fs: FileSystem) returns (filesBySize: Groups<nat, Path>)
    ensures filesBySize == GroupAll(videos, SizeKey(fs))
  {
    filesBySize := Empty();
    for n := 0 to |videos|
      invariant filesBySize == GroupAll(videos[..n], SizeKey(fs))
    {
      assert videos[..n + 1] == videos[..n] + [videos[n]];
      GroupAllSnoc(videos[..n], videos[n], SizeKey(fs));
      var fullPath := RealPath(fs, videos[n]);
      if fullPath.OSError? {
        assert SizeKey(fs)(videos[n]) == None;
        continue;
      }
      var fileSize := GetSize(fs, fullPath.value);
      if fileSize.OSError? {
        assert SizeKey(fs)(videos[n]) == None;
        continue;
      }
      assert SizeKey(fs)(videos[n]) == Some((fileSize.value, fullPath.value));
      filesBySize := Append(filesBySize, fileSize.value, fullPath.value);
    }
    assert videos[..|videos|] == videos;
  }

  /** The inner loop of the second tier over the members of one size group:
      each readable member is appended under `(size, digest of its first
      chunk)`. */
  method SmallHashGroup(filesBySmallHash: Groups<(nat, Digest), Path>, ghost visited: seq<(nat, Path)>,
                        size: nat, files: seq<Path>, fs: FileSystem, algo: Bytes -> Digest)
    returns (grown: Groups<(nat, Digest), Path>)
    requires filesBySmallHash == GroupAll(visited, SmallHashKey(fs, algo))
    ensures grown == GroupAll(visited + Tagged(size, files), SmallHashKey(fs, algo))
  {
    grown := filesBySmallHash;
    assert visited + Tagged(size, files[..0]) == visited;
    for n := 0 to |files|
      invariant grown == GroupAll(visited + Tagged(size, files[..n]), SmallHashKey(fs, algo))
    {
      TaggedSnoc(visited, size, files, n);
      GroupAllSnoc(visited + Tagged(size, files[..n]), (size, files[n]), SmallHashKey(fs, algo));
      var smallHash := GetHash(files[n], true, fs, algo);
      if smallHash.OSError? {
        continue;
      }
      grown := Append(grown, (size, smallHash.value), files[n]);
    }
    assert files[..|files|] == files;
  }

  /** Second tier: every member of a size group of two or more is put under
      `(size, digest of its first chunk)`; members that cannot be read are
      skipped. */
  method SmallHashTier(filesBySize: Groups<nat, Path>, fs: FileSystem, algo: Bytes -> Digest)
    returns (filesBySmallHash: Groups<(nat, Digest), Path>)
    ensures filesBySmallHash == GroupAll(Survivors(filesBySize), SmallHashKey(fs, algo))
  {
    filesBySmallHash := Empty();
    var sizes := filesBySize.keys;
    for m := 0 to |sizes|
      invariant filesBySmallHash == GroupAll(SurvivorsOf(sizes[..m], filesBySize), SmallHashKey(fs, algo))
    {
      SurvivorsOfSnoc(sizes, m, filesBySize);
      ghost var visited := SurvivorsOf(sizes[..m], filesBySize);
      var size := sizes[m];
      var files := Get(filesBySize, size);
      if |files| < 2 {
        assert visited + [] == visited;
        continue;
      }
      filesBySmallHash := SmallHashGroup(filesBySmallHash, visited, size, files, fs, algo);
    }
    assert sizes[..|sizes|] == sizes;
  }

  /** The inner loop of the third tier over the members of one first-chunk
      group: each readable member is appended under the digest of its whole
      content. */
  method FullHashGroup(filesByFullHash: Groups<Digest, Path>, ghost visited: seq<Path>,
                       files: seq<Path>, fs: FileSystem, algo: Bytes -> Digest)
    returns (grown: Groups<Digest, Path>)
    requires filesByFullHash == GroupAll(visited, FullHashKey(fs, algo))
    ensures grown == GroupAll(visited + files, FullHashKey(fs, algo))
  {
    grown := filesByFullHash;
    assert visited + files[..0] == visited;
    for n := 0 to |files|
      invariant grown == GroupAll(visited + files[..n], FullHashKey(fs, algo))
    {
      PrefixSnoc(visited, files, n);
      GroupAllSnoc(visited + files[..n], files[n], FullHashKey(fs, algo));
      var fullHash := GetHash(files[n], false, fs, algo);
      if fullHash.OSError? {
        continue;
      }
      grown := Append(grown, fullHash.value, files[n]);
    }
    assert files[..|files|] == files;
  }

  /** Third tier: every member of a `(size, first-chunk digest)` group of two
      or more is put under the digest of its whole content; members that
      cannot be read are skipped. */
  method FullHashTier(filesBySmallHash: Groups<(nat, Digest), Path>, fs: FileSystem, algo: Bytes -> Digest)
    returns (filesByFullHash: Groups<Digest, Path>)
    ensures filesByFullHash == GroupAll(SurvivingValues(filesBySmallHash), FullHashKey(fs, algo))
  {
    filesByFullHash := Empty();
    var keys := filesBySmallHash.keys;
    for m := 0 to |keys|
      invariant filesByFullHash ==
        GroupAll(SurvivingValuesOf(keys[..m], filesBySmallHash), FullHashKey(fs, algo))
    {
      SurvivingValuesOfSnoc(keys, m, filesBySmallHash);
      ghost var visited := SurvivingValuesOf(keys[..m], filesBySmallHash);
      var files := Get(filesBySmallHash, keys[m]);
      if |files| < 2 {
        assert visited + [] == visited;
        continue;
      }
      filesByFullHash := FullHashGroup(filesByFullHash, visited, files, fs, algo);
    }
    assert keys[..|keys|] == keys;
  }

  class DuplicateFinder {
    const videoDir: Path
    const recursive: bool
    const types: seq<string>
    var videosList: seq<Path>
    var buckets: seq<seq<Path>>

    constructor (videoDir: Path, recursive: bool)
      ensures this.videoDir == videoDir && this.recursive == recursive
      ensures types == VideoTypes && videosList == [] && buckets == []
    {
      this.videoDir := videoDir;
      this.recursive := recursive;
      types := VideoTypes;
      videosList := [];
      buckets := [];
    }

    /** `generate_videos_list`, given what `os.walk(videoDir)` yields. */
    method GenerateVideosList(walk: seq<WalkStep>) returns (videos: seq<Path>)
      ensures videos == Listing(walk, recursive, types)
    {
      videos := [];
      var i := 0;
      while i < |walk|
        invariant 0 <= i <= |walk|
        invariant !recursive ==> i == 0
        invariant videos == ListingOf(walk[..i], types)
      {
        assert walk[..i + 1][..i] == walk[..i];
        videos := videos + VideosIn(walk[i], types);
        i := i + 1;
        if !recursive {
          break;
        }
      }
      assert recursive ==> walk[..i] == walk;
    }

    /** `pure_dups`: groups the listed paths by size, the members of shared
        sizes by `(size, first-chunk digest)`, the members of shared keys by
        full digest, and keeps the full-digest groups of two or more. */
    method PureDups(t: Timeline, algo: Bytes -> Digest)
      modifies this`buckets
      ensures buckets == ExactDuplicates(videosList, t, algo)
    {
      var filesBySize := SizeTier(videosList, t.sizing);
      var filesBySmallHash := SmallHashTier(filesBySize, t.sampling, algo);
      var filesByFullHash := FullHashTier(filesBySmallHash, t.hashing, algo);
      buckets := LongLists(filesByFullHash);
    }

    /** `find_dups`: lists the videos, detects the exact duplicates, then
        drops from the list every path found after the first member of some
        bucket. */
    method FindDups(walk: seq<WalkStep>, t: Timeline, algo: Bytes -> Digest)
      modifies this`videosList, this`buckets
      ensures buckets == ExactDuplicates(Listing(walk, recursive, types), t, algo)
      ensures videosList == Kept(Listing(walk, recursive, types), Redundant(buckets))
    {
      videosList := GenerateVideosList(walk);
      PureDups(t, algo);

      var flattenedDups := FlattenDups(buckets);
      videosList := Kept(videosList, flattenedDups);
    }

    /** The values `get_results` prints: the redundant-copy count and the
        buckets it lists. */
    method GetResults() returns (count: int, shown: seq<seq<Path>>)
      ensures shown == DupBuckets(buckets)
      ensures count == |Redundant(shown)| && count >= |shown|
    {
      shown := DupBuckets(buckets);
      var deepDupLen := TotalLength(shown);
      count := deepDupLen - |shown|;
      DupBucketsLong(buckets);
      CountIsRedundantCopies(shown);
    }
  }
}
