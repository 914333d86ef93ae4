/** The three-tier exact-duplicate detector of `pure_dups`, as functions of
    the listed paths, the filesystem and the digest algorithm, and what it
    guarantees. */
module Detection {
  import opened Common
  import opened Files
  import opened Hashing
  import opened Groups

  /** The filesystem as each tier finds it. Files may vanish, change or lose
      their permissions between the size tier, the first-chunk tier and the
      full-hash tier. */
  datatype Timeline = Timeline(sizing: FileSystem, sampling: FileSystem, hashing: FileSystem)

  /** Size tier, one listed path: `realpath`, then `getsize` of the result;
      either raising `OSError` skips the path. */
  function Resolve(fs: FileSystem, raw: Path): Option<(nat, Path)>
  {
    match RealPath(fs, raw)
    case OSError => None
    case Ok(p) =>
      match GetSize(fs, p)
      case OSError => None
      case Ok(size) => Some((size, p))
  }

  function SizeKey(fs: FileSystem): Path -> Option<(nat, Path)>
  {
    raw => Resolve(fs, raw)
  }

  /** First-chunk tier, one member `(size, path)` of a size group: keyed by
      `(size, small_hash)`, skipped when hashing raises `OSError`. */
  function SmallHashEntry(fs: FileSystem, algo: Bytes -> Digest, e: (nat, Path)): Option<((nat, Digest), Path)>
  {
    match FileHash(fs, e.1, true, algo)
    case OSError => None
    case Ok(h) => Some(((e.0, h), e.1))
  }

  function SmallHashKey(fs: FileSystem, algo: Bytes -> Digest): ((nat, Path)) -> Option<((nat, Digest), Path)>
  {
    e => SmallHashEntry(fs, algo, e)
  }

  /** Full-hash tier, one path: keyed by its full digest alone, skipped when
      hashing raises `OSError`. */
  function FullHashEntry(fs: FileSystem, algo: Bytes -> Digest, p: Path): Option<(Digest, Path)>
  {
    match FileHash(fs, p, false, algo)
    case OSError => None
    case Ok(d) => Some((d, p))
  }

  function FullHashKey(fs: FileSystem, algo: Bytes -> Digest): Path -> Option<(Digest, Path)>
  {
    p => FullHashEntry(fs, algo, p)
  }

  /** `files_by_size` after the first loop. */
  function BySize(videos: seq<Path>, t: Timeline): Groups<nat, Path>
  {
    GroupAll(videos, SizeKey(t.sizing))
  }

  /** `files_by_small_hash` after the second loop, which visits the members
      of the size groups of two or more. */
  function BySmallHash(videos: seq<Path>, t: Timeline, algo: Bytes -> Digest): Groups<(nat, Digest), Path>
  {
    GroupAll(Survivors(BySize(videos, t)), SmallHashKey(t.sampling, algo))
  }

  /** The paths the third loop full-hashes, in the order it hashes them. */
  function FullHashOrder(videos: seq<Path>, t: Timeline, algo: Bytes -> Digest): seq<Path>
  {
    SurvivingValues(BySmallHash(videos, t, algo))
  }

  /** `files_by_full_hash` after the third loop. */
  function ByFullHash(videos: seq<Path>, t: Timeline, algo: Bytes -> Digest): Groups<Digest, Path>
  {
    GroupAll(FullHashOrder(videos, t, algo), FullHashKey(t.hashing, algo))
  }

  /** What `pure_dups` stores in `self.buckets`. */
  function ExactDuplicates(videos: seq<Path>, t: Timeline, algo: Bytes -> Digest): seq<seq<Path>>
  {
    LongLists(ByFullHash(videos, t, algo))
  }

  lemma DistinctMembers<T>(s: seq<T>, a: T, b: T)
    requires a in s && b in s && a != b
    ensures |s| >= 2
  {
  }

  /** A member of the size group of `s` is the resolved target of a listed
      path, and its size is `s`. */
  lemma SizeGroupMember(videos: seq<Path>, fs: FileSystem, s: nat, p: Path)
    requires p in Select(videos, SizeKey(fs), s)
    ensures GetSize(fs, p) == Ok(s)
    ensures exists y :: y in videos && RealPath(fs, y) == Ok(p)
  {
    SelectOrigin(videos, SizeKey(fs), s, p);
    var y :| y in videos && SizeKey(fs)(y) == Some((s, p));
    assert Resolve(fs, y) == Some((s, p));
  }

  /** A member of the first-chunk group of `(s, h)` was visited with size
      `s`, and the digest of its first chunk is `h`. */
  lemma SmallHashGroupMember(pairs: seq<(nat, Path)>, fs: FileSystem, algo: Bytes -> Digest, k: (nat, Digest), p: Path)
    requires p in Select(pairs, SmallHashKey(fs, algo), k)
    ensures (k.0, p) in pairs && FileHash(fs, p, true, algo) == Ok(k.1)
  {
    SelectOrigin(pairs, SmallHashKey(fs, algo), k, p);
    var e :| e in pairs && SmallHashKey(fs, algo)(e) == Some((k, p));
    assert SmallHashEntry(fs, algo, e) == Some((k, p));
  }

  /** A member of the full-digest group of `d` is a file of the full-hash
      order whose full digest is `d`. */
  lemma FullHashGroupMember(order: seq<Path>, fs: FileSystem, algo: Bytes -> Digest, d: Digest, p: Path)
    requires p in Select(order, FullHashKey(fs, algo), d)
    ensures p in order && FileHash(fs, p, false, algo) == Ok(d)
  {
    SelectOrigin(order, FullHashKey(fs, algo), d, p);
    var x :| x in order && FullHashKey(fs, algo)(x) == Some((d, p));
    assert FullHashEntry(fs, algo, x) == Some((d, p));
  }

  /** A bucket member was full-hashed without error. */
  lemma BucketMemberOrigin(videos: seq<Path>, t: Timeline, algo: Bytes -> Digest, b: seq<Path>, p: Path)
    requires b in ExactDuplicates(videos, t, algo) && p in b
    ensures p in FullHashOrder(videos, t, algo)
    ensures FileHash(t.hashing, p, false, algo).Ok?
  {
    var order := FullHashOrder(videos, t, algo);
    var buckets := LongLists(GroupAll(order, FullHashKey(t.hashing, algo)));
    var i :| 0 <= i < |buckets| && buckets[i] == b;
    var d := LongListIsSelect(order, FullHashKey(t.hashing, algo), i);
    FullHashGroupMember(order, t.hashing, algo, d, p);
  }

  /** Every bucket has at least two members, all of which produced one and
      the same full digest, and it lists exactly the files of the full-hash
      order with that digest, in that order. */
  lemma BucketIsOneDigest(videos: seq<Path>, t: Timeline, algo: Bytes -> Digest, i: nat)
    requires i < |ExactDuplicates(videos, t, algo)|
    ensures var b := ExactDuplicates(videos, t, algo)[i];
      && |b| >= 2
      && FileHash(t.hashing, b[0], false, algo).Ok?
      && (forall p | p in b :: FileHash(t.hashing, p, false, algo) == FileHash(t.hashing, b[0], false, algo))
      && b == Select(FullHashOrder(videos, t, algo), FullHashKey(t.hashing, algo),
                     FileHash(t.hashing, b[0], false, algo).value)
  {
    var order := FullHashOrder(videos, t, algo);
    var b := ExactDuplicates(videos, t, algo)[i];
    var d := LongListIsSelect(order, FullHashKey(t.hashing, algo), i);
    forall p | p in b
      ensures FileHash(t.hashing, p, false, algo) == Ok(d)
    {
      FullHashGroupMember(order, t.hashing, algo, d, p);
    }
    assert b[0] in b;
  }

  /** Two different buckets share no member. */
  lemma BucketsDisjoint(videos: seq<Path>, t: Timeline, algo: Bytes -> Digest, i: nat, j: nat)
    requires i < j < |ExactDuplicates(videos, t, algo)|
    ensures forall p | p in ExactDuplicates(videos, t, algo)[i] :: p !in ExactDuplicates(videos, t, algo)[j]
  {
    var order := FullHashOrder(videos, t, algo);
    var buckets := ExactDuplicates(videos, t, algo);
    var di, dj := LongListsApart(order, FullHashKey(t.hashing, algo), i, j);
    forall p | p in buckets[i]
      ensures p !in buckets[j]
    {
      FullHashGroupMember(order, t.hashing, algo, di, p);
      if p in buckets[j] {
        FullHashGroupMember(order, t.hashing, algo, dj, p);
      }
    }
  }

  /** A full-hashed path was in a size group of two or more listed files
      and in a first-chunk group of two or more files; the witnesses are its
      size and its first-chunk digest. */
  lemma FullHashedOrigin(videos: seq<Path>, t: Timeline, algo: Bytes -> Digest, p: Path)
    returns (s: nat, h: Digest)
    requires p in FullHashOrder(videos, t, algo)
    ensures GetSize(t.sizing, p) == Ok(s)
    ensures FileHash(t.sampling, p, true, algo) == Ok(h)
    ensures p in Select(videos, SizeKey(t.sizing), s) && |Select(videos, SizeKey(t.sizing), s)| >= 2
    ensures |Select(Survivors(BySize(videos, t)), SmallHashKey(t.sampling, algo), (s, h))| >= 2
  {
    var g1 := BySize(videos, t);
    var t2 := Survivors(g1);
    var g2 := BySmallHash(videos, t, algo);
    SurvivingValueOrigin(g2.keys, g2, p);
    var k :| k in g2.keys && p in Get(g2, k) && |Get(g2, k)| >= 2;
    GroupAllSelectsAt(t2, SmallHashKey(t.sampling, algo), k);
    SmallHashGroupMember(t2, t.sampling, algo, k, p);
    SurvivorsMember(g1.keys, g1, k.0, p);
    GroupAllSelectsAt(videos, SizeKey(t.sizing), k.0);
    SizeGroupMember(videos, t.sizing, k.0, p);
    s, h := k.0, k.1;
  }

  /** Every path reaching the full-digest tier is the `realpath` of some
      listed path. */
  lemma FullHashedIsResolved(videos: seq<Path>, t: Timeline, algo: Bytes -> Digest, p: Path)
    requires p in FullHashOrder(videos, t, algo)
    ensures exists y :: y in videos && RealPath(t.sizing, y) == Ok(p)
  {
    var s, h := FullHashedOrigin(videos, t, algo, p);
    SizeGroupMember(videos, t.sizing, s, p);
  }

  /** Pruning by size: a file whose size no other listed file shares is
      never full-hashed and never in a bucket. */
  lemma PrunedBySize(videos: seq<Path>, t: Timeline, algo: Bytes -> Digest, p: Path, s: nat)
    requires GetSize(t.sizing, p) == Ok(s)
    requires |Select(videos, SizeKey(t.sizing), s)| < 2
    ensures p !in FullHashOrder(videos, t, algo)
    ensures forall b | b in ExactDuplicates(videos, t, algo) :: p !in b
  {
    if p in FullHashOrder(videos, t, algo) {
      var s', h := FullHashedOrigin(videos, t, algo, p);
    }
    forall b | b in ExactDuplicates(videos, t, algo) ensures p !in b {
      if p in b {
        BucketMemberOrigin(videos, t, algo, b, p);
      }
    }
  }

  /** Pruning by first chunk: a file whose `(size, first-chunk digest)` no
      other file of its size group shares is never full-hashed and never in
      a bucket. */
  lemma PrunedBySmallHash(videos: seq<Path>, t: Timeline, algo: Bytes -> Digest, p: Path, s: nat, h: Digest)
    requires GetSize(t.sizing, p) == Ok(s)
    requires FileHash(t.sampling, p, true, algo) == Ok(h)
    requires |Select(Survivors(BySize(videos, t)), SmallHashKey(t.sampling, algo), (s, h))| < 2
    ensures p !in FullHashOrder(videos, t, algo)
    ensures forall b | b in ExactDuplicates(videos, t, algo) :: p !in b
  {
    if p in FullHashOrder(videos, t, algo) {
      var s', h' := FullHashedOrigin(videos, t, algo, p);
    }
    forall b | b in ExactDuplicates(videos, t, algo) ensures p !in b {
      if p in b {
        BucketMemberOrigin(videos, t, algo, b, p);
      }
    }
  }

  /** Error skipping: a file whose size or first-chunk digest raised
      `OSError` is never full-hashed, and one for which any of the three
      raised is in no bucket. */
  lemma FailuresExcluded(videos: seq<Path>, t: Timeline, algo: Bytes -> Digest, p: Path)
    ensures GetSize(t.sizing, p).OSError? || FileHash(t.sampling, p, true, algo).OSError? ==>
      p !in FullHashOrder(videos, t, algo)
    ensures GetSize(t.sizing, p).OSError? || FileHash(t.sampling, p, true, algo).OSError? ||
            FileHash(t.hashing, p, false, algo).OSError? ==>
      forall b | b in ExactDuplicates(videos, t, algo) :: p !in b
  {
    if p in FullHashOrder(videos, t, algo) {
      var s, h := FullHashedOrigin(videos, t, algo, p);
    }
    forall b | b in ExactDuplicates(videos, t, algo) && p in b
      ensures GetSize(t.sizing, p).Ok? && FileHash(t.sampling, p, true, algo).Ok? && FileHash(t.hashing, p, false, algo).Ok?
    {
      BucketMemberOrigin(videos, t, algo, b, p);
      var s, h := FullHashedOrigin(videos, t, algo, p);
    }
  }

  /** Error skipping: a listed path whose `realpath` or `getsize` raised is
      skipped and nothing else changes: the run gives what it gives on the
      list without that path. */
  lemma UnresolvableSkipped(videos: seq<Path>, t: Timeline, algo: Bytes -> Digest, i: nat)
    requires i < |videos| && Resolve(t.sizing, videos[i]) == None
    ensures FullHashOrder(videos[..i] + videos[i + 1..], t, algo) == FullHashOrder(videos, t, algo)
    ensures ExactDuplicates(videos[..i] + videos[i + 1..], t, algo) == ExactDuplicates(videos, t, algo)
  {
    assert videos == videos[..i] + [videos[i]] + videos[i + 1..];
    SkipUnclassified(videos[..i], videos[i], videos[i + 1..], SizeKey(t.sizing));
  }

  /** Completeness: two different files reached from the list that agree on
      size, first-chunk digest and full digest end up in the same bucket. */
  lemma AgreeingFilesShareBucket(videos: seq<Path>, t: Timeline, algo: Bytes -> Digest, x: Path, y: Path, p: Path, q: Path)
    requires x in videos && y in videos && p != q
    requires RealPath(t.sizing, x) == Ok(p) && RealPath(t.sizing, y) == Ok(q)
    requires GetSize(t.sizing, p).Ok? && GetSize(t.sizing, p) == GetSize(t.sizing, q)
    requires FileHash(t.sampling, p, true, algo).Ok? && FileHash(t.sampling, p, true, algo) == FileHash(t.sampling, q, true, algo)
    requires FileHash(t.hashing, p, false, algo).Ok? && FileHash(t.hashing, p, false, algo) == FileHash(t.hashing, q, false, algo)
    ensures exists b :: b in ExactDuplicates(videos, t, algo) && p in b && q in b
  {
    var s := GetSize(t.sizing, p).value;
    var h := FileHash(t.sampling, p, true, algo).value;
    var d := FileHash(t.hashing, p, false, algo).value;
    // size tier
    var g1 := BySize(videos, t);
    GroupAllSelectsAt(videos, SizeKey(t.sizing), s);
    SelectMember(videos, SizeKey(t.sizing), x, s, p);
    SelectMember(videos, SizeKey(t.sizing), y, s, q);
    DistinctMembers(Get(g1, s), p, q);
    SurvivorsMember(g1.keys, g1, s, p);
    SurvivorsMember(g1.keys, g1, s, q);
    // first-chunk tier
    var t2 := Survivors(g1);
    var g2 := BySmallHash(videos, t, algo);
    GroupAllSelectsAt(t2, SmallHashKey(t.sampling, algo), (s, h));
    SelectMember(t2, SmallHashKey(t.sampling, algo), (s, p), (s, h), p);
    SelectMember(t2, SmallHashKey(t.sampling, algo), (s, q), (s, h), q);
    DistinctMembers(Get(g2, (s, h)), p, q);
    SurvivingValueFrom(g2.keys, g2, (s, h), p);
    SurvivingValueFrom(g2.keys, g2, (s, h), q);
    // full-hash tier
    var order := FullHashOrder(videos, t, algo);
    var g3 := ByFullHash(videos, t, algo);
    GroupAllSelectsAt(order, FullHashKey(t.hashing, algo), d);
    SelectMember(order, FullHashKey(t.hashing, algo), p, d, p);
    SelectMember(order, FullHashKey(t.hashing, algo), q, d, q);
    DistinctMembers(Get(g3, d), p, q);
    LongListsHas(g3.keys, g3, d);
  }

  /** Completeness on a filesystem that holds still: two different readable
      files with identical content end up in the same bucket. */
  lemma IdenticalFilesShareBucket(videos: seq<Path>, fs: FileSystem, algo: Bytes -> Digest, x: Path, y: Path, p: Path, q: Path)
    requires x in videos && y in videos && p != q
    requires RealPath(fs, x) == Ok(p) && RealPath(fs, y) == Ok(q)
    requires Open(fs, p).Ok? && Open(fs, p) == Open(fs, q)
    ensures exists b :: b in ExactDuplicates(videos, Timeline(fs, fs, fs), algo) && p in b && q in b
  {
    AgreeingFilesShareBucket(videos, Timeline(fs, fs, fs), algo, x, y, p, q);
  }
}
