/*******************************************************************************
 *  The merge pass and round loop of the root snapshot QuineMcCluskey.js.
 *
 *  The snapshot pairs buckets, flags terms and builds merged terms exactly as
 *  src/QuineMcCluskey.js does, but appends every merged term to its bucket
 *  without looking for an equal term first, so one term formed from two
 *  different pairs appears twice in the next round.
 *******************************************************************************/

module RootMerging {
  import opened Wrappers
  import opened Utils
  import opened Collections
  import opened Terms
  import opened Merging

  /** The outer loop from i on: every term merged from buckets i and i + 1 is
      appended to bucket i, whether or not an equal term is already there. */
  function RootFillFrom(groups: seq<seq<Term>>, i: nat, newGroup: seq<seq<Term>>): (r: seq<seq<Term>>)
    requires |groups| == |newGroup| + 1
    ensures |r| == |newGroup|
    decreases |groups| - i
  {
    if i + 1 >= |groups| then newGroup
    else RootFillFrom(groups, i + 1, newGroup[i := newGroup[i] + PairMerges(groups[i], groups[i + 1])])
  }

  /** #checkAndMergeTerms of the root snapshot. */
  function RootCheckAndMergeTerms(groups: seq<seq<Term>>): (p: Pass)
    ensures groups != [] ==> |p.newGroup| < |groups|
  {
    var newGroup := if groups == [] then [] else RootFillFrom(groups, 0, seq(|groups| - 1, _ => []));
    Pass(MarkUsed(groups), DropEmpty(newGroup))
  }

  /** simplifyGroups of the root snapshot (an async function there; the
      promise is not modelled). */
  function RootSimplifyGroups(groups: seq<seq<Term>>, rounds: seq<seq<seq<Term>>>): (r: seq<seq<seq<Term>>>)
    requires RoundShaped(groups, |rounds|)
    ensures |r| > |rounds| && r[..|rounds|] == rounds
    ensures |groups| <= 1 ==> r == rounds + [groups]
    ensures RoundsShapedFrom(r, |rounds|)
    ensures Unused(r[|r| - 1])
    decreases |groups|
  {
    if |groups| <= 1 then
      LastRound(rounds, groups);
      rounds + [groups]
    else
      var pass := RootCheckAndMergeTerms(groups);
      RootPassFacts(groups, |rounds|);
      if |pass.newGroup| >= 1 then
        var r := RootSimplifyGroups(pass.newGroup, rounds + [pass.groups]);
        RoundsExtend(rounds, pass.groups, r);
        r
      else
        LastRound(rounds, pass.groups);
        rounds + [pass.groups]
  }

  /** The snapshot's pass keeps the guarantees of the src pass. */
  lemma RootPassFacts(groups: seq<seq<Term>>, r: nat)
    requires RoundShaped(groups, r)
    ensures var pass := RootCheckAndMergeTerms(groups);
      && ShapedAt(pass.groups, r)
      && (pass.newGroup != [] ==>
            && RoundShaped(pass.newGroup, r + 1)
            && MaxIndex(Flatten(pass.newGroup)) <= MaxIndex(Flatten(groups))
            && r + 1 <= MaxIndex(Flatten(pass.newGroup)))
      && (pass.newGroup == [] ==> Unused(pass.groups))
  {
    var pass := RootCheckAndMergeTerms(groups);
    MarkUsedShaped(groups, r);
    RootNewGroupSpec(groups);
    MergedBucketsShaped(groups, pass.newGroup, r);
    if pass.newGroup == [] {
      RootNoMergeNoUse(groups, r);
    }
  }

  // ---------------------------------------------------------------------------
  // The next round
  // ---------------------------------------------------------------------------

  lemma {:induction false} RootFillFromFlatten(groups: seq<seq<Term>>, i: nat, newGroup: seq<seq<Term>>)
    requires |groups| == |newGroup| + 1
    requires forall j :: i <= j < |newGroup| ==> newGroup[j] == []
    ensures Flatten(RootFillFrom(groups, i, newGroup)) == Flatten(newGroup) + MergesFrom(groups, i)
    decreases |groups| - i
  {
    if i + 1 < |groups| {
      var ms := PairMerges(groups[i], groups[i + 1]);
      var n' := newGroup[i := newGroup[i] + ms];
      AppendAtFlatten(newGroup, i, ms);
      RootFillFromFlatten(groups, i + 1, n');
      assert Flatten(newGroup) + ms + MergesFrom(groups, i + 1) == Flatten(newGroup) + (ms + MergesFrom(groups, i + 1));
    } else {
      assert MergesFrom(groups, i) == [];
    }
  }

  /** The snapshot's next round holds every merged term of the pass, once per
      pair that forms it, in loop order, and has no empty bucket. */
  lemma RootNewGroupSpec(groups: seq<seq<Term>>)
    ensures var ng := RootCheckAndMergeTerms(groups).newGroup;
      && Flatten(ng) == MergesFrom(groups, 0)
      && (forall t :: t in Flatten(ng) <==> exists i, e1, e2 :: IsMergeAt(groups, i, e1, e2, t))
      && (forall k :: 0 <= k < |ng| ==> ng[k] != [])
  {
    var ng := RootCheckAndMergeTerms(groups).newGroup;
    if groups != [] {
      var empty: seq<seq<Term>> := seq(|groups| - 1, _ => []);
      RootFillFromFlatten(groups, 0, empty);
      FlattenEmpties(empty);
      DropEmptySpec(RootFillFrom(groups, 0, empty));
    }
    forall t
      ensures t in Flatten(ng) <==> exists i, e1, e2 :: IsMergeAt(groups, i, e1, e2, t)
    {
      AllMergesMember(groups, t);
    }
  }

  /** The snapshot's outer loop from i on leaves the buckets before i alone. */
  lemma {:induction false} RootFillFromKeeps(groups: seq<seq<Term>>, i: nat, newGroup: seq<seq<Term>>, j: nat)
    requires |groups| == |newGroup| + 1 && j < i && j < |newGroup|
    ensures RootFillFrom(groups, i, newGroup)[j] == newGroup[j]
    decreases |groups| - i
  {
    if i + 1 < |groups| {
      RootFillFromKeeps(groups, i + 1, newGroup[i := newGroup[i] + PairMerges(groups[i], groups[i + 1])], j);
    }
  }

  /** In the snapshot, bucket k of the sparse next round holds every merge of
      buckets k and k + 1, repetitions included, in loop order. */
  lemma {:induction false} RootFillFromBucket(groups: seq<seq<Term>>, i: nat, newGroup: seq<seq<Term>>, k: nat)
    requires |groups| == |newGroup| + 1
    requires forall j :: i <= j < |newGroup| ==> newGroup[j] == []
    requires i <= k < |newGroup|
    ensures RootFillFrom(groups, i, newGroup)[k] == PairMerges(groups[k], groups[k + 1])
    decreases |groups| - i
  {
    var n' := newGroup[i := newGroup[i] + PairMerges(groups[i], groups[i + 1])];
    assert RootFillFrom(groups, i, newGroup) == RootFillFrom(groups, i + 1, n');
    if k == i {
      RootFillFromKeeps(groups, i + 1, n', i);
    } else {
      RootFillFromBucket(groups, i + 1, n', k);
    }
  }

  /** The snapshot's next round before its holes are dropped: bucket k holds
      all merges of buckets k and k + 1, whether or not an earlier pair
      already formed them. */
  lemma RootNewGroupBuckets(groups: seq<seq<Term>>)
    ensures groups != [] ==>
      var dense := RootFillFrom(groups, 0, seq(|groups| - 1, _ => []));
      && RootCheckAndMergeTerms(groups).newGroup == DropEmpty(dense)
      && |dense| == |groups| - 1
      && forall k :: 0 <= k < |dense| ==> dense[k] == PairMerges(groups[k], groups[k + 1])
  {
    if groups != [] {
      var empty: seq<seq<Term>> := seq(|groups| - 1, _ => []);
      forall k | 0 <= k < |groups| - 1
        ensures RootFillFrom(groups, 0, empty)[k] == PairMerges(groups[k], groups[k + 1])
      {
        RootFillFromBucket(groups, 0, empty, k);
      }
    }
  }

  /** Without duplicate suppression the snapshot's next round is the src
      version's next round with the repetitions put back: the same terms, and
      dropping the repetitions gives the src version's round exactly. */
  lemma RootAgreesUpToRepetition(groups: seq<seq<Term>>)
    ensures Flatten(CheckAndMergeTerms(groups).newGroup)
         == DedupFrom([], Flatten(RootCheckAndMergeTerms(groups).newGroup))
    ensures RootCheckAndMergeTerms(groups).groups == CheckAndMergeTerms(groups).groups
  {
    NewGroupSpec(groups);
    RootNewGroupSpec(groups);
  }

  lemma RootNoMergeNoUse(groups: seq<seq<Term>>, r: nat)
    requires RoundShaped(groups, r)
    requires RootCheckAndMergeTerms(groups).newGroup == []
    ensures Unused(MarkUsed(groups))
  {
    RootAgreesUpToRepetition(groups);
    NewGroupSpec(groups);
    assert CheckAndMergeTerms(groups).newGroup == [];
    NoMergeNoUse(groups, r);
  }

  // ---------------------------------------------------------------------------
  // Two pairs forming the same term
  // ---------------------------------------------------------------------------

  /** Round-1 buckets in which {0,2} merges with {1,3} and {0,1} merges with
      {2,3}: both pairs form the term covering 0, 1, 2 and 3. */
  function DuplicateScenario(): seq<seq<Term>>
  {
    [[Term([0, 1], false, [1]), Term([0, 2], false, [2])],
     [Term([1, 3], false, [2]), Term([2, 3], false, [1])]]
  }

  /** The term covering 0, 1, 2 and 3 with distances 1 and 2. */
  function Quad(): Term
  {
    Term([0, 1, 2, 3], false, [1, 2])
  }

  lemma ScenarioDifferences()
    ensures var g := DuplicateScenario();
      && GetDifference(g[0][0].indexes, g[1][0].indexes) == None
      && GetDifference(g[0][0].indexes, g[1][1].indexes) == Some(2)
      && GetDifference(g[0][1].indexes, g[1][0].indexes) == Some(1)
      && GetDifference(g[0][1].indexes, g[1][1].indexes) == None
  {
    assert IsPowerOfTwo(2) && IsPowerOfTwo(1) && !IsPowerOfTwo(3);
  }

  lemma ScenarioMerges()
    ensures var g := DuplicateScenario();
      && Merge(g[0][0], g[1][1], 2) == Quad()
      && Merge(g[0][1], g[1][0], 1) == Quad()
  {
    var g: seq<seq<Term>> := DuplicateScenario();
    assert g[0][0].indexes + g[1][1].indexes == [0, 1, 2, 3];
    assert Sort([0, 1, 2, 3]) == [0, 1, 2, 3];
    assert g[0][1].indexes + g[1][0].indexes == [0, 2, 1, 3];
    assert Sort([0, 2, 1, 3]) == [0, 1, 2, 3];
    assert g[0][0].diff + [2] == [1, 2];
    assert Sort([1, 2]) == [1, 2];
    assert g[0][1].diff + [1] == [2, 1];
    assert Sort([2, 1]) == [1, 2];
  }

  /** Both pairs of the scenario form the same term. */
  lemma ScenarioPairMerges()
    ensures PairMerges(DuplicateScenario()[0], DuplicateScenario()[1]) == [Quad(), Quad()]
  {
    var g: seq<seq<Term>> := DuplicateScenario();
    ScenarioDifferences();
    ScenarioMerges();
    assert MergesWith(g[0][0], g[1][1..]) == [Quad()];
    assert MergesWith(g[0][0], g[1]) == [Quad()];
    assert MergesWith(g[0][1], g[1][1..]) == [];
    assert MergesWith(g[0][1], g[1]) == [Quad()];
    assert PairMerges(g[0][1..], g[1]) == [Quad()];
  }

  lemma RootScenarioNewGroup()
    ensures RootCheckAndMergeTerms(DuplicateScenario()).newGroup == [[Quad(), Quad()]]
  {
    var g: seq<seq<Term>> := DuplicateScenario();
    ScenarioPairMerges();
    var empty: seq<seq<Term>> := [[]];
    assert seq(|g| - 1, _ => []) == empty;
    assert empty[0] + [Quad(), Quad()] == [Quad(), Quad()];
    assert empty[0 := empty[0] + [Quad(), Quad()]] == [[Quad(), Quad()]];
    assert RootFillFrom(g, 1, [[Quad(), Quad()]]) == [[Quad(), Quad()]];
    assert RootFillFrom(g, 0, empty) == [[Quad(), Quad()]];
  }

  /** Adding the two equal terms to an empty bucket keeps one. */
  lemma ScenarioAddAll()
    ensures AddAllIfAbsent([[]], 0, [Quad(), Quad()]) == [[Quad()]]
  {
    var empty: seq<seq<Term>> := [[]];
    var once: seq<seq<Term>> := [[Quad()]];
    CheckElementExistsInArrayIff(Quad(), empty);
    assert empty[0] + [Quad()] == [Quad()];
    assert empty[0 := empty[0] + [Quad()]] == once;
    assert AddIfAbsent(empty, 0, Quad()) == once;
    CheckElementExistsInArrayIff(Quad(), once);
    assert Quad() in once[0];
    assert AddIfAbsent(once, 0, Quad()) == once;
    assert AddAllIfAbsent(once, 0, [Quad()]) == once;
  }

  lemma SrcScenarioNewGroup()
    ensures CheckAndMergeTerms(DuplicateScenario()).newGroup == [[Quad()]]
  {
    var g: seq<seq<Term>> := DuplicateScenario();
    ScenarioPairMerges();
    ScenarioAddAll();
    var empty: seq<seq<Term>> := [[]];
    var once: seq<seq<Term>> := [[Quad()]];
    assert seq(|g| - 1, _ => []) == empty;
    assert FillFrom(g, 1, once) == once;
    assert FillFrom(g, 0, empty) == once;
  }

  /** The snapshot puts the term covering 0..3 into the next round twice;
      src/QuineMcCluskey.js puts it there once. */
  lemma RootKeepsDuplicates()
    ensures RootCheckAndMergeTerms(DuplicateScenario()).newGroup == [[Quad(), Quad()]]
    ensures CheckAndMergeTerms(DuplicateScenario()).newGroup == [[Quad()]]
  {
    RootScenarioNewGroup();
    SrcScenarioNewGroup();
  }
}
