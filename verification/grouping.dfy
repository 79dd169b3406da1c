/*******************************************************************************
 *  #groupMintermIndexes (src/QuineMcCluskey.js) and its twin
 *  groupMintermIndexes (QuineMcCluskey.js): minterms bucketed by the number of
 *  ones in their binary rendering.
 *******************************************************************************/

module Grouping {
  import opened Utils
  import opened Collections
  import opened Terms

  /** Appends t to the bucket for popcount count; a hole of the sparse array
      is an empty bucket here. */
  function Place(groups: seq<seq<Term>>, count: nat, t: Term): seq<seq<Term>>
  {
    if count < |groups| then groups[count := groups[count] + [t]]
    else groups + seq(count - |groups|, _ => []) + [[t]]
  }

  /** The sparse `groups` array once the forEach has visited every minterm of ms. */
  function Bucket(ms: seq<nat>): seq<seq<Term>>
  {
    if ms == [] then []
    else Place(Bucket(ms[..|ms| - 1]), CountOnesInBinary(Last(ms)), Singleton(Last(ms)))
  }

  /** #groupMintermIndexes: the buckets with the holes filtered out. */
  function GroupMintermIndexes(ms: seq<nat>): seq<seq<Term>>
  {
    DropEmpty(Bucket(ms))
  }

  /** Reference definition: the singleton terms of the minterms with k set
      bits, in input order. */
  function WithPopCount(ms: seq<nat>, k: nat): seq<Term>
  {
    if ms == [] then []
    else WithPopCount(ms[..|ms| - 1], k) + (if PopCount(Last(ms)) == k then [Singleton(Last(ms))] else [])
  }

  /** The popcount a non-empty bucket was filed under. */
  function Key(g: seq<Term>): nat
    requires g != [] && g[0].indexes != []
  {
    PopCount(g[0].indexes[0])
  }

  // ---------------------------------------------------------------------------

  lemma {:induction false} WithPopCountMember(ms: seq<nat>, k: nat, t: Term)
    ensures t in WithPopCount(ms, k) <==> exists m :: m in ms && PopCount(m) == k && t == Singleton(m)
  {
    if ms != [] {
      var init := ms[..|ms| - 1];
      WithPopCountMember(init, k, t);
      assert ms == init + [Last(ms)];
      if exists m :: m in ms && PopCount(m) == k && t == Singleton(m) {
        var m :| m in ms && PopCount(m) == k && t == Singleton(m);
        if m != Last(ms) {
          assert m in init;
        }
      }
    }
  }

  /** The sparse array holds, at every position k, exactly the singletons with
      popcount k, and nothing lies beyond it. */
  lemma {:induction false} BucketSpec(ms: seq<nat>)
    ensures forall k :: 0 <= k < |Bucket(ms)| ==> Bucket(ms)[k] == WithPopCount(ms, k)
    ensures forall k: nat :: k >= |Bucket(ms)| ==> WithPopCount(ms, k) == []
  {
    if ms != [] {
      var init := ms[..|ms| - 1];
      var m := Last(ms);
      BucketSpec(init);
      CountOnesIsPopCount(m);
      var c := CountOnesInBinary(m);
      var b := Bucket(ms);
      forall k | 0 <= k < |b|
        ensures b[k] == WithPopCount(ms, k)
      {
        if k != c && k >= |Bucket(init)| {
          assert b[k] == [];
        }
      }
    }
  }

  lemma {:induction false} DropEmptyKeys(buckets: seq<seq<Term>>, offset: nat)
    requires forall i, t :: 0 <= i < |buckets| && t in buckets[i] ==>
      t.indexes != [] && PopCount(t.indexes[0]) == offset + i
    ensures var r := DropEmpty(buckets);
      && (forall j :: 0 <= j < |r| ==> r[j] != [] && r[j][0].indexes != [] && Key(r[j]) >= offset)
      && (forall j, j' :: 0 <= j < j' < |r| ==> Key(r[j]) < Key(r[j']))
  {
    DropEmptySpec(buckets);
    if buckets != [] {
      var tail := buckets[1..];
      forall i, t: Term | 0 <= i < |tail| && t in tail[i]
        ensures t.indexes != [] && PopCount(t.indexes[0]) == offset + 1 + i
      {
        assert t in buckets[i + 1];
      }
      DropEmptyKeys(tail, offset + 1);
      DropEmptySpec(tail);
      var r := DropEmpty(buckets);
      if buckets[0] != [] {
        assert buckets[0][0] in buckets[0];
        assert r == [buckets[0]] + DropEmpty(tail);
      }
    }
  }

  /** Every term at position i of the sparse array is a singleton of
      popcount i. */
  lemma BucketKeys(ms: seq<nat>, i: nat, t: Term)
    requires i < |Bucket(ms)| && t in Bucket(ms)[i]
    ensures t.indexes != [] && PopCount(t.indexes[0]) == i
  {
    BucketSpec(ms);
    WithPopCountMember(ms, i, t);
  }

  /** The buckets are non-empty and in strictly ascending popcount order. */
  lemma GroupKeys(ms: seq<nat>)
    ensures var g := GroupMintermIndexes(ms);
      && (forall j :: 0 <= j < |g| ==> g[j] != [] && g[j][0].indexes != [])
      && (forall j, j' :: 0 <= j < j' < |g| ==> Key(g[j]) < Key(g[j']))
  {
    var b := Bucket(ms);
    var g := GroupMintermIndexes(ms);
    forall i, t: Term | 0 <= i < |b| && t in b[i]
      ensures t.indexes != [] && PopCount(t.indexes[0]) == 0 + i
    {
      BucketKeys(ms, i, t);
    }
    DropEmptyKeys(b, 0);
    assert g == DropEmpty(b);
  }

  /** The buckets are non-empty, in strictly ascending popcount order, and
      each holds exactly the minterms of its popcount in input order. */
  lemma GroupBuckets(ms: seq<nat>)
    ensures var g := GroupMintermIndexes(ms);
      && (forall j :: 0 <= j < |g| ==>
            g[j] != [] && g[j][0].indexes != [] && g[j] == WithPopCount(ms, Key(g[j])))
      && (forall j, j' :: 0 <= j < j' < |g| ==> Key(g[j]) < Key(g[j']))
  {
    var b := Bucket(ms);
    var g := GroupMintermIndexes(ms);
    BucketSpec(ms);
    GroupKeys(ms);
    DropEmptySpec(b);
    forall j | 0 <= j < |g|
      ensures g[j] == WithPopCount(ms, Key(g[j]))
    {
      assert g[j] in b;
      var i :| 0 <= i < |b| && b[i] == g[j];
      assert g[j][0] in b[i];
      BucketKeys(ms, i, g[j][0]);
    }
  }

  /** Every minterm is in some bucket. */
  lemma GroupCovers(ms: seq<nat>)
    ensures var g := GroupMintermIndexes(ms);
      forall m :: m in ms ==> exists j :: 0 <= j < |g| && Singleton(m) in g[j]
  {
    var b := Bucket(ms);
    var g := GroupMintermIndexes(ms);
    BucketSpec(ms);
    DropEmptySpec(b);
    forall m | m in ms
      ensures exists j :: 0 <= j < |g| && Singleton(m) in g[j]
    {
      var k := PopCount(m);
      WithPopCountMember(ms, k, Singleton(m));
      assert WithPopCount(ms, k) != [];
      assert k < |b|;
      assert b[k] in g;
    }
  }

  /** Grouping puts every minterm into a singleton `{indexes: [m], used: false,
      diff: null}` of the bucket for its popcount: buckets come in strictly
      ascending popcount order, none is empty, each holds exactly the minterms
      of its popcount in input order, and every minterm is in one of them. */
  lemma GroupMintermIndexesSpec(ms: seq<nat>)
    ensures var g := GroupMintermIndexes(ms);
      && (forall j :: 0 <= j < |g| ==>
            g[j] != [] && g[j][0].indexes != [] && g[j] == WithPopCount(ms, Key(g[j])))
      && (forall j, j' :: 0 <= j < j' < |g| ==> Key(g[j]) < Key(g[j']))
      && (forall m :: m in ms ==> exists j :: 0 <= j < |g| && Singleton(m) in g[j])
  {
    GroupBuckets(ms);
    GroupCovers(ms);
  }

  /** Every term of the grouping is an unused round-0 term holding one minterm. */
  lemma GroupMintermIndexesTerms(ms: seq<nat>)
    ensures forall t :: t in Flatten(GroupMintermIndexes(ms)) ==>
      !t.used && Shaped(t, 0) && exists m :: m in ms && t == Singleton(m)
  {
    var b := Bucket(ms);
    BucketSpec(ms);
    DropEmptySpec(b);
    forall t | t in Flatten(GroupMintermIndexes(ms))
      ensures !t.used && Shaped(t, 0) && exists m :: m in ms && t == Singleton(m)
    {
      FlattenMember(b, t);
      var i :| 0 <= i < |b| && t in b[i];
      WithPopCountMember(ms, i, t);
    }
  }
}
