/** File discovery: the extension test and the listing that
    `generate_videos_list` builds from the directory walk. */
module Enumeration {
  import opened Common

  /** The accepted extensions, in the order the finder lists them. */
  const VideoTypes: seq<string> := ["mp4", "mov", "webm"]

  /** `s.split(sep)`: the fields between separators, at least one. */
  function Split(s: string, sep: char): (fields: seq<string>)
    ensures |fields| >= 1
    ensures forall i | 0 <= i < |fields| :: sep !in fields[i]
  {
    if s == [] then [[]]
    else
      var init := Split(s[..|s| - 1], sep);
      if s[|s| - 1] == sep then init + [[]]
      else init[..|init| - 1] + [init[|init| - 1] + [s[|s| - 1]]]
  }

  /** `sep.join(fields)`. */
  function JoinWith(fields: seq<string>, sep: char): string
  {
    if fields == [] then []
    else if |fields| == 1 then fields[0]
    else JoinWith(fields[..|fields| - 1], sep) + [sep] + fields[|fields| - 1]
  }

  lemma {:induction false} JoinExtendLast(fields: seq<string>, sep: char, c: char)
    requires |fields| >= 1
    ensures JoinWith(fields[..|fields| - 1] + [fields[|fields| - 1] + [c]], sep) == JoinWith(fields, sep) + [c]
  {
    var n := |fields| - 1;
    var ext := fields[..n] + [fields[n] + [c]];
    assert ext[..n] == fields[..n];
  }

  lemma JoinSnocEmpty(fields: seq<string>, sep: char)
    requires |fields| >= 1
    ensures JoinWith(fields + [[]], sep) == JoinWith(fields, sep) + [sep]
  {
    assert (fields + [[]])[..|fields|] == fields;
  }

  /** Splitting loses nothing: joining the fields back gives the name. */
  lemma {:induction false} SplitJoin(s: string, sep: char)
    ensures JoinWith(Split(s, sep), sep) == s
  {
    if s != [] {
      var n := |s| - 1;
      var front, c := s[..n], s[n];
      SplitJoin(front, sep);
      var init := Split(front, sep);
      assert s == front + [c];
      if c == sep {
        assert Split(s, sep) == init + [[]];
        JoinSnocEmpty(init, sep);
      } else {
        assert Split(s, sep) == init[..|init| - 1] + [init[|init| - 1] + [c]];
        JoinExtendLast(init, sep, c);
      }
    }
  }

  /** `name.split(".")[-1]`. */
  function Extension(name: string): string
  {
    var fields := Split(name, '.');
    fields[|fields| - 1]
  }

  /** `e` is the text after the last `.` of `name`, or all of `name` when it
      has no `.`. */
  ghost predicate IsTextAfterLastDot(name: string, e: string)
  {
    && |e| <= |name|
    && name[|name| - |e|..] == e
    && '.' !in e
    && (|e| == |name| || name[|name| - |e| - 1] == '.')
  }

  /** The last field grows with every character but a dot, which starts a
      new, empty one. */
  lemma ExtensionSnoc(name: string)
    requires name != []
    ensures Extension(name) ==
      if name[|name| - 1] == '.' then [] else Extension(name[..|name| - 1]) + [name[|name| - 1]]
  {
  }

  /** The last field is a suffix of the name. */
  lemma {:induction false} ExtensionSuffix(name: string)
    ensures |Extension(name)| <= |name| && name[|name| - |Extension(name)|..] == Extension(name)
  {
    if name != [] {
      var n := |name| - 1;
      var front := name[..n];
      ExtensionSnoc(name);
      if name[n] != '.' {
        ExtensionSuffix(front);
        var e := Extension(front);
        assert name[n - |e|..] == front[n - |e|..] + [name[n]];
      }
    }
  }

  /** The last field is the whole name or is preceded by a dot. */
  lemma {:induction false} ExtensionBoundary(name: string)
    ensures |Extension(name)| <= |name|
    ensures |Extension(name)| == |name| || name[|name| - |Extension(name)| - 1] == '.'
  {
    ExtensionSuffix(name);
    if name != [] {
      var n := |name| - 1;
      var front := name[..n];
      ExtensionSnoc(name);
      if name[n] != '.' {
        ExtensionBoundary(front);
        var e := Extension(front);
        if |e| < n {
          assert name[n - |e| - 1] == front[n - |e| - 1];
        }
      }
    }
  }

  lemma ExtensionAfterLastDot(name: string)
    ensures IsTextAfterLastDot(name, Extension(name))
  {
    ExtensionSuffix(name);
    ExtensionBoundary(name);
    var fields := Split(name, '.');
    assert '.' !in fields[|fields| - 1];
  }

  /** At most one text is "after the last dot". */
  lemma AfterLastDotUnique(name: string, e1: string, e2: string)
    requires IsTextAfterLastDot(name, e1) && IsTextAfterLastDot(name, e2)
    ensures e1 == e2
  {
  }

  /** The test of the listing comprehension: `f.split(".")[-1] in types`. */
  predicate Accepted(name: string, types: seq<string>)
  {
    Extension(name) in types
  }

  /** With the finder's own types, a name is accepted iff the text after its
      last dot (the whole name when there is none) is exactly one of `mp4`,
      `mov`, `webm`. */
  lemma AcceptedIff(name: string)
    ensures Accepted(name, VideoTypes) <==>
      IsTextAfterLastDot(name, "mp4") || IsTextAfterLastDot(name, "mov") || IsTextAfterLastDot(name, "webm")
  {
    ExtensionAfterLastDot(name);
    if IsTextAfterLastDot(name, "mp4") { AfterLastDotUnique(name, "mp4", Extension(name)); }
    if IsTextAfterLastDot(name, "mov") { AfterLastDotUnique(name, "mov", Extension(name)); }
    if IsTextAfterLastDot(name, "webm") { AfterLastDotUnique(name, "webm", Extension(name)); }
  }

  /** Whatever precedes the last dot, the text after it decides alone, and it
      must equal an accepted type exactly. */
  lemma AcceptedSuffix(stem: string, e: string, types: seq<string>)
    requires '.' !in e
    ensures Accepted(stem + "." + e, types) <==> e in types
  {
    var name := stem + "." + e;
    assert name[|name| - |e|..] == e;
    assert name[|name| - |e| - 1] == '.';
    ExtensionAfterLastDot(name);
    AfterLastDotUnique(name, e, Extension(name));
  }

  /** The comparison is case-sensitive: an upper-case `.MP4` is refused. */
  lemma UpperCaseRefused(stem: string)
    ensures !Accepted(stem + ".MP4", VideoTypes)
  {
    AcceptedSuffix(stem, "MP4", VideoTypes);
    assert stem + ".MP4" == stem + "." + "MP4";
    assert "MP4"[0] != "mp4"[0] && "MP4"[0] != "mov"[0] && "MP4"[0] != "webm"[0];
  }

  /** A name without any dot is its own last field, so a file named exactly
      `mp4`, `mov` or `webm` is accepted. */
  lemma DotlessAccepted(name: string)
    requires '.' !in name
    ensures Accepted(name, VideoTypes) <==> name in VideoTypes
  {
    ExtensionAfterLastDot(name);
    var e := Extension(name);
    assert e == name[|name| - |e|..] == name;
  }

  /** `os.path.join(a, b)` on POSIX: an absolute `b` replaces `a`; otherwise
      `b` is appended, with a `/` between unless `a` is empty or already
      ends in one. */
  function PathJoin(a: Path, b: Path): (r: Path)
    ensures |b| <= |r| && r[|r| - |b|..] == b
    ensures (b == [] || b[0] != '/') ==> |a| <= |r| && r[..|a|] == a
  {
    if b != [] && b[0] == '/' then b
    else if a == [] || a[|a| - 1] == '/' then a + b
    else a + "/" + b
  }

  /** One triple `(dirpath, dirnames, filenames)` yielded by `os.walk`. */
  datatype WalkStep = WalkStep(dirpath: Path, dirnames: seq<string>, filenames: seq<string>)

  /** `[path.join(dirpath, f) for f in filenames if f.split(".")[-1] in types]`. */
  function VideosIn(step: WalkStep, types: seq<string>): seq<Path>
  {
    Accepting(step.dirpath, step.filenames, types)
  }

  function Accepting(dir: Path, names: seq<string>, types: seq<string>): seq<Path>
  {
    if names == [] then []
    else
      var f := names[|names| - 1];
      Accepting(dir, names[..|names| - 1], types) + if Accepted(f, types) then [PathJoin(dir, f)] else []
  }

  lemma {:induction false} AcceptingMember(dir: Path, names: seq<string>, types: seq<string>, p: Path)
    ensures p in Accepting(dir, names, types) <==>
      exists f :: f in names && Accepted(f, types) && p == PathJoin(dir, f)
  {
    if names != [] {
      var n := |names| - 1;
      AcceptingMember(dir, names[..n], types, p);
      assert names == names[..n] + [names[n]];
    }
  }

  /** The videos of the first `n` walk steps, in walk order. */
  function ListingOf(walk: seq<WalkStep>, types: seq<string>): seq<Path>
  {
    if walk == [] then []
    else ListingOf(walk[..|walk| - 1], types) + VideosIn(walk[|walk| - 1], types)
  }

  /** What `generate_videos_list` returns: every walk step's videos when
      recursive, otherwise only those of the first step (the top directory). */
  function Listing(walk: seq<WalkStep>, recursive: bool, types: seq<string>): seq<Path>
  {
    if recursive then ListingOf(walk, types) else ListingOf(walk[..Min(1, |walk|)], types)
  }

  lemma {:induction false} ListingOfMember(walk: seq<WalkStep>, types: seq<string>, p: Path)
    ensures p in ListingOf(walk, types) <==> exists i :: 0 <= i < |walk| && p in VideosIn(walk[i], types)
  {
    if walk != [] {
      var n := |walk| - 1;
      ListingOfMember(walk[..n], types, p);
      if p in ListingOf(walk[..n], types) {
        var i :| 0 <= i < n && p in VideosIn(walk[..n][i], types);
        assert walk[..n][i] == walk[i];
      } else if p !in VideosIn(walk[n], types) {
        forall i | 0 <= i < |walk| ensures p !in VideosIn(walk[i], types) {
          if i < n {
            assert walk[..n][i] == walk[i];
          }
        }
      }
    }
  }

  /** A path is listed iff it joins an accepted file name to the directory of
      a walk step, and without recursion that step is the first one. */
  lemma ListingMember(walk: seq<WalkStep>, recursive: bool, types: seq<string>, p: Path)
    ensures p in Listing(walk, recursive, types) <==>
      exists i, f :: 0 <= i < |walk| && (recursive || i == 0) &&
        f in walk[i].filenames && Accepted(f, types) && p == PathJoin(walk[i].dirpath, f)
  {
    var top := walk[..Min(1, |walk|)];
    ListingOfMember(walk, types, p);
    ListingOfMember(top, types, p);
    if !recursive && walk != [] {
      assert top == [walk[0]];
    }
    forall i | 0 <= i < |walk|
      ensures p in VideosIn(walk[i], types) <==>
        exists f :: f in walk[i].filenames && Accepted(f, types) && p == PathJoin(walk[i].dirpath, f)
    {
      AcceptingMember(walk[i].dirpath, walk[i].filenames, types, p);
    }
  }
}
