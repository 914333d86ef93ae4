/** Insertion-ordered dictionaries from keys to lists, as the detector builds
    them with `d[key].append(value)`, and the operations the detector runs
    over them: grouping a sequence, walking the groups with at least two
    members, and collecting those groups. */
module Groups {
  import opened Common

  /** `keys` is the dictionary's insertion order; `lists` its contents. */
  datatype Groups<K, V> = Groups(keys: seq<K>, lists: map<K, seq<V>>)

  ghost predicate Distinct<T>(s: seq<T>)
  {
    forall i, j | 0 <= i < j < |s| :: s[i] != s[j]
  }

  /** Every key is listed once, in the order it was inserted, and holds a
      non-empty list (a key only enters the dictionary with a first value). */
  ghost predicate Valid<K, V>(g: Groups<K, V>)
  {
    && Distinct(g.keys)
    && (forall k | k in g.keys :: k in g.lists)
    && (forall k | k in g.lists :: k in g.keys)
    && (forall k | k in g.lists :: g.lists[k] != [])
  }

  /** The list stored under `k`; empty when `k` was never inserted. */
  function Get<K(==), V>(g: Groups<K, V>, k: K): seq<V>
  {
    if k in g.lists then g.lists[k] else []
  }

  function Empty<K(==), V>(): (g: Groups<K, V>)
    ensures Valid(g)
    ensures g.keys == [] && g.lists == map[]
  {
    Groups([], map[])
  }

  /** `d[k].append(v)` on a `defaultdict(list)`, or equally `d[k].append(v)`
      when `k in d` and `d[k] = [v]` otherwise: a new key goes to the end of
      the insertion order, an existing key keeps its place. */
  function Append<K(==), V>(g: Groups<K, V>, k: K, v: V): (r: Groups<K, V>)
    requires Valid(g)
    ensures Valid(r)
    ensures r.keys == if k in g.keys then g.keys else g.keys + [k]
    ensures r.lists == g.lists[k := Get(g, k) + [v]]
  {
    if k in g.lists then Groups(g.keys, g.lists[k := g.lists[k] + [v]])
    else assert [] + [v] == [v]; Groups(g.keys + [k], g.lists[k := [v]])
  }

  /** One loop step of grouping: an element whose key could not be computed
      (`None`, the `except OSError: continue` branch) leaves the groups as
      they are; otherwise its value is appended under its key. */
  function Place<K(==), V>(g: Groups<K, V>, c: Option<(K, V)>): (r: Groups<K, V>)
    requires Valid(g)
    ensures Valid(r)
  {
    match c
    case None => g
    case Some(kv) => Append(g, kv.0, kv.1)
  }

  /** The groups a loop over `xs` builds, one `Place` per element, in order. */
  function GroupAll<X, K(==), V>(xs: seq<X>, classify: X -> Option<(K, V)>): (g: Groups<K, V>)
    ensures Valid(g)
  {
    if xs == [] then Empty()
    else Place(GroupAll(xs[..|xs| - 1], classify), classify(xs[|xs| - 1]))
  }

  /** One more loop step. */
  lemma GroupAllSnoc<X, K, V>(xs: seq<X>, x: X, classify: X -> Option<(K, V)>)
    ensures GroupAll(xs + [x], classify) == Place(GroupAll(xs, classify), classify(x))
  {
    assert (xs + [x])[..|xs|] == xs;
  }

  /** Reference definition of one group: the values of the elements of `xs`
      classified under `k`, in the order of `xs`. */
  function Select<X, K(==), V>(xs: seq<X>, classify: X -> Option<(K, V)>, k: K): seq<V>
  {
    if xs == [] then []
    else
      Select(xs[..|xs| - 1], classify, k) +
      match classify(xs[|xs| - 1])
      case Some(kv) => if kv.0 == k then [kv.1] else []
      case None => []
  }

  /** Grouping is filtering: the list under every key is exactly the
      selection of that key, and a key is present iff something was
      classified under it. */
  lemma {:induction false} GroupAllSelects<X, K, V>(xs: seq<X>, classify: X -> Option<(K, V)>)
    ensures forall k :: Get(GroupAll(xs, classify), k) == Select(xs, classify, k)
    ensures forall k :: k in GroupAll(xs, classify).keys <==> Select(xs, classify, k) != []
  {
    if xs != [] {
      GroupAllSelects(xs[..|xs| - 1], classify);
    }
    var g := GroupAll(xs, classify);
    forall k ensures k in g.keys <==> Select(xs, classify, k) != [] {
      assert k in g.keys <==> k in g.lists;
      assert k in g.lists ==> g.lists[k] != [];
    }
  }

  /** `GroupAllSelects` at one key. */
  lemma GroupAllSelectsAt<X, K, V>(xs: seq<X>, classify: X -> Option<(K, V)>, k: K)
    ensures Get(GroupAll(xs, classify), k) == Select(xs, classify, k)
    ensures k in GroupAll(xs, classify).keys <==> Select(xs, classify, k) != []
  {
    GroupAllSelects(xs, classify);
  }

  lemma {:induction false} SelectMember<X, K, V>(xs: seq<X>, classify: X -> Option<(K, V)>, x: X, k: K, v: V)
    requires x in xs && classify(x) == Some((k, v))
    ensures v in Select(xs, classify, k)
  {
    var n := |xs| - 1;
    if x != xs[n] {
      assert x in xs[..n];
      SelectMember(xs[..n], classify, x, k, v);
    }
  }

  lemma {:induction false} SelectOrigin<X, K, V>(xs: seq<X>, classify: X -> Option<(K, V)>, k: K, v: V)
    requires v in Select(xs, classify, k)
    ensures exists x :: x in xs && classify(x) == Some((k, v))
  {
    var n := |xs| - 1;
    if v in Select(xs[..n], classify, k) {
      SelectOrigin(xs[..n], classify, k, v);
      var x :| x in xs[..n] && classify(x) == Some((k, v));
      assert x in xs;
    } else {
      assert classify(xs[n]) == Some((k, v));
    }
  }

  /** An element whose key cannot be computed is skipped and changes nothing:
      grouping the sequence without it gives the same dictionary. */
  lemma {:induction false} SkipUnclassified<X, K, V>(xs: seq<X>, x: X, ys: seq<X>, classify: X -> Option<(K, V)>)
    requires classify(x) == None
    ensures GroupAll(xs + [x] + ys, classify) == GroupAll(xs + ys, classify)
  {
    if ys == [] {
      assert xs + [x] + ys == xs + [x];
      assert xs + ys == xs;
      GroupAllSnoc(xs, x, classify);
    } else {
      var n := |ys| - 1;
      SkipUnclassified(xs, x, ys[..n], classify);
      assert xs + [x] + ys == (xs + [x] + ys[..n]) + [ys[n]];
      assert xs + ys == (xs + ys[..n]) + [ys[n]];
      GroupAllSnoc(xs + [x] + ys[..n], ys[n], classify);
      GroupAllSnoc(xs + ys[..n], ys[n], classify);
    }
  }

  /** `[(k, v) for v in vs]`. */
  function Tagged<K(==), V>(k: K, vs: seq<V>): seq<(K, V)>
  {
    if vs == [] then [] else Tagged(k, vs[..|vs| - 1]) + [(k, vs[|vs| - 1])]
  }

  lemma {:induction false} TaggedMember<K, V>(k: K, vs: seq<V>, k': K, v: V)
    ensures (k', v) in Tagged(k, vs) <==> k' == k && v in vs
  {
    if vs != [] {
      var n := |vs| - 1;
      TaggedMember(k, vs[..n], k', v);
      assert vs == vs[..n] + [vs[n]];
    }
  }

  lemma PrefixSnoc<T>(visited: seq<T>, vs: seq<T>, n: nat)
    requires n < |vs|
    ensures visited + vs[..n + 1] == (visited + vs[..n]) + [vs[n]]
  {
    assert vs[..n + 1] == vs[..n] + [vs[n]];
  }

  lemma TaggedSnoc<K, V>(visited: seq<(K, V)>, k: K, vs: seq<V>, n: nat)
    requires n < |vs|
    ensures visited + Tagged(k, vs[..n + 1]) == (visited + Tagged(k, vs[..n])) + [(k, vs[n])]
  {
    assert vs[..n + 1][..n] == vs[..n];
  }

  /** The pairs `(key, value)` a nested loop `for key, values in d.items():
      if len(values) < 2: continue; for value in values: …` visits, for the
      keys `ks`. */
  function SurvivorsOf<K(==), V>(ks: seq<K>, g: Groups<K, V>): seq<(K, V)>
  {
    if ks == [] then []
    else
      var k := ks[|ks| - 1];
      SurvivorsOf(ks[..|ks| - 1], g) + if |Get(g, k)| < 2 then [] else Tagged(k, Get(g, k))
  }

  lemma SurvivorsOfSnoc<K, V>(ks: seq<K>, m: nat, g: Groups<K, V>)
    requires m < |ks|
    ensures SurvivorsOf(ks[..m + 1], g) ==
      SurvivorsOf(ks[..m], g) + if |Get(g, ks[m])| < 2 then [] else Tagged(ks[m], Get(g, ks[m]))
  {
    assert ks[..m + 1][..m] == ks[..m];
  }

  function Survivors<K(==), V>(g: Groups<K, V>): seq<(K, V)>
  {
    SurvivorsOf(g.keys, g)
  }

  /** A pair is visited iff its value sits in a group of at least two. */
  lemma {:induction false} SurvivorsMember<K, V>(ks: seq<K>, g: Groups<K, V>, k: K, v: V)
    ensures (k, v) in SurvivorsOf(ks, g) <==> k in ks && v in Get(g, k) && |Get(g, k)| >= 2
  {
    if ks != [] {
      var n := |ks| - 1;
      SurvivorsMember(ks[..n], g, k, v);
      TaggedMember(ks[n], Get(g, ks[n]), k, v);
      assert ks == ks[..n] + [ks[n]];
    }
  }

  /** The values a nested loop `for values in d.values(): if len(values) < 2:
      continue; for value in values: …` visits, for the keys `ks`. */
  function SurvivingValuesOf<K(==), V>(ks: seq<K>, g: Groups<K, V>): seq<V>
  {
    if ks == [] then []
    else
      var k := ks[|ks| - 1];
      SurvivingValuesOf(ks[..|ks| - 1], g) + if |Get(g, k)| < 2 then [] else Get(g, k)
  }

  lemma SurvivingValuesOfSnoc<K, V>(ks: seq<K>, m: nat, g: Groups<K, V>)
    requires m < |ks|
    ensures SurvivingValuesOf(ks[..m + 1], g) ==
      SurvivingValuesOf(ks[..m], g) + if |Get(g, ks[m])| < 2 then [] else Get(g, ks[m])
  {
    assert ks[..m + 1][..m] == ks[..m];
  }

  function SurvivingValues<K(==), V>(g: Groups<K, V>): seq<V>
  {
    SurvivingValuesOf(g.keys, g)
  }

  lemma {:induction false} SurvivingValueFrom<K, V>(ks: seq<K>, g: Groups<K, V>, k: K, v: V)
    requires k in ks && v in Get(g, k) && |Get(g, k)| >= 2
    ensures v in SurvivingValuesOf(ks, g)
  {
    var n := |ks| - 1;
    if k != ks[n] {
      assert k in ks[..n];
      SurvivingValueFrom(ks[..n], g, k, v);
    }
  }

  lemma {:induction false} SurvivingValueOrigin<K, V>(ks: seq<K>, g: Groups<K, V>, v: V)
    requires v in SurvivingValuesOf(ks, g)
    ensures exists k :: k in ks && v in Get(g, k) && |Get(g, k)| >= 2
  {
    var n := |ks| - 1;
    if v in SurvivingValuesOf(ks[..n], g) {
      SurvivingValueOrigin(ks[..n], g, v);
      var k :| k in ks[..n] && v in Get(g, k) && |Get(g, k)| >= 2;
      assert k in ks;
    } else {
      assert v in Get(g, ks[n]) && |Get(g, ks[n])| >= 2;
    }
  }

  /** `[values for values in d.values() if len(values) > 1]`, for the keys `ks`. */
  function LongListsOf<K(==), V>(ks: seq<K>, g: Groups<K, V>): seq<seq<V>>
  {
    if ks == [] then []
    else
      var k := ks[|ks| - 1];
      LongListsOf(ks[..|ks| - 1], g) + if |Get(g, k)| > 1 then [Get(g, k)] else []
  }

  function LongLists<K(==), V>(g: Groups<K, V>): seq<seq<V>>
  {
    LongListsOf(g.keys, g)
  }

  /** The keys whose lists `LongListsOf` collects, in the same order. */
  ghost function LongKeysOf<K, V>(ks: seq<K>, g: Groups<K, V>): seq<K>
  {
    if ks == [] then []
    else
      var k := ks[|ks| - 1];
      LongKeysOf(ks[..|ks| - 1], g) + if |Get(g, k)| > 1 then [k] else []
  }

  /** Each collected list is the list of a key of `ks`, and has at least two
      members. */
  lemma {:induction false} LongListsKeyed<K, V>(ks: seq<K>, g: Groups<K, V>)
    ensures |LongListsOf(ks, g)| == |LongKeysOf(ks, g)|
    ensures forall i | 0 <= i < |LongKeysOf(ks, g)| ::
      && LongKeysOf(ks, g)[i] in ks
      && LongListsOf(ks, g)[i] == Get(g, LongKeysOf(ks, g)[i])
      && |Get(g, LongKeysOf(ks, g)[i])| >= 2
  {
    if ks != [] {
      var n := |ks| - 1;
      LongListsKeyed(ks[..n], g);
      var keys, lists := LongKeysOf(ks[..n], g), LongListsOf(ks[..n], g);
      forall i | 0 <= i < |LongKeysOf(ks, g)|
        ensures && LongKeysOf(ks, g)[i] in ks
                && LongListsOf(ks, g)[i] == Get(g, LongKeysOf(ks, g)[i])
                && |Get(g, LongKeysOf(ks, g)[i])| >= 2
      {
        if i < |keys| {
          assert LongKeysOf(ks, g)[i] == keys[i] && LongListsOf(ks, g)[i] == lists[i];
          assert keys[i] in ks[..n];
        }
      }
    }
  }

  /** Distinct keys give distinct collected keys. */
  lemma {:induction false} LongKeysDistinct<K, V>(ks: seq<K>, g: Groups<K, V>)
    requires Distinct(ks)
    ensures Distinct(LongKeysOf(ks, g))
  {
    if ks != [] {
      var n := |ks| - 1;
      assert Distinct(ks[..n]);
      LongKeysDistinct(ks[..n], g);
      LongListsKeyed(ks[..n], g);
      var keys := LongKeysOf(ks[..n], g);
      forall i | 0 <= i < |keys| ensures keys[i] != ks[n] {
        var j :| 0 <= j < n && ks[..n][j] == keys[i];
      }
    }
  }

  /** Every key whose list has at least two members contributes its list. */
  /** The `i`-th kept group of a grouping is the filter of the inputs
      classified under one key, and has two or more members. */
  lemma LongListIsSelect<X, K, V>(xs: seq<X>, classify: X -> Option<(K, V)>, i: nat) returns (k: K)
    requires i < |LongLists(GroupAll(xs, classify))|
    ensures LongLists(GroupAll(xs, classify))[i] == Select(xs, classify, k)
    ensures |Select(xs, classify, k)| >= 2
  {
    var g := GroupAll(xs, classify);
    LongListsKeyed(g.keys, g);
    k := LongKeysOf(g.keys, g)[i];
    GroupAllSelectsAt(xs, classify, k);
  }

  /** Two different kept groups come from two different keys. */
  lemma LongListsApart<X, K, V>(xs: seq<X>, classify: X -> Option<(K, V)>, i: nat, j: nat) returns (ki: K, kj: K)
    requires i < j < |LongLists(GroupAll(xs, classify))|
    ensures ki != kj
    ensures LongLists(GroupAll(xs, classify))[i] == Select(xs, classify, ki)
    ensures LongLists(GroupAll(xs, classify))[j] == Select(xs, classify, kj)
  {
    var g := GroupAll(xs, classify);
    LongListsKeyed(g.keys, g);
    LongKeysDistinct(g.keys, g);
    ki, kj := LongKeysOf(g.keys, g)[i], LongKeysOf(g.keys, g)[j];
    GroupAllSelectsAt(xs, classify, ki);
    GroupAllSelectsAt(xs, classify, kj);
  }

  lemma {:induction false} LongListsHas<K, V>(ks: seq<K>, g: Groups<K, V>, k: K)
    requires k in ks && |Get(g, k)| >= 2
    ensures Get(g, k) in LongListsOf(ks, g)
  {
    var n := |ks| - 1;
    if k != ks[n] {
      assert k in ks[..n];
      LongListsHas(ks[..n], g, k);
    }
  }
}
