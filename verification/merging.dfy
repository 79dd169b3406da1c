/*******************************************************************************
 *  One merge pass (#checkAndMergeTerms) and the round loop (#simplifyGroups)
 *  of src/QuineMcCluskey.js.
 *
 *  A pass compares every term of bucket i with every term of bucket i + 1.
 *  When #getDifference finds a common power-of-two distance d, both terms are
 *  flagged `used` and the merged term goes into bucket i of the next round,
 *  unless a structurally equal term is already anywhere in that next round.
 *******************************************************************************/

module Merging {
  import opened Wrappers
  import opened Utils
  import opened Collections
  import opened Terms

  /** The result of #checkAndMergeTerms: the input buckets with their `used`
      flags set, and the buckets of the next round. */
  datatype Pass = Pass(groups: seq<seq<Term>>, newGroup: seq<seq<Term>>)

  /** Some term of `upper` merges with t from above. */
  function HasUpperPartner(t: Term, upper: seq<Term>): bool
  {
    upper != [] && (GetDifference(t.indexes, upper[0].indexes).Some? || HasUpperPartner(t, upper[1..]))
  }

  /** Some term of `lower` merges with t from below. */
  function HasLowerPartner(lower: seq<Term>, t: Term): bool
  {
    lower != [] && (GetDifference(lower[0].indexes, t.indexes).Some? || HasLowerPartner(lower[1..], t))
  }

  /** Term t of bucket gi once the pass is over: flagged when it merged as
      `grp1Element` with bucket gi + 1 or as `grp2Element` with bucket gi - 1. */
  function MarkTerm(groups: seq<seq<Term>>, gi: nat, t: Term): Term
    requires gi < |groups|
  {
    t.(used := t.used
               || (gi + 1 < |groups| && HasUpperPartner(t, groups[gi + 1]))
               || (gi > 0 && HasLowerPartner(groups[gi - 1], t)))
  }

  /** The `used` assignments of one pass, applied to every bucket. */
  function MarkUsed(groups: seq<seq<Term>>): seq<seq<Term>>
  {
    seq(|groups|, gi requires 0 <= gi < |groups| =>
      seq(|groups[gi]|, k requires 0 <= k < |groups[gi]| => MarkTerm(groups, gi, groups[gi][k])))
  }

  /** The terms `lower` forms with the terms of `upper`, in the order of the
      inner forEach. `Boolean(storedDiff)` holds exactly for a found distance,
      which is a power of two and so never 0. */
  function MergesWith(lower: Term, upper: seq<Term>): seq<Term>
  {
    if upper == [] then []
    else
      (match GetDifference(lower.indexes, upper[0].indexes)
       case Some(d) => [Merge(lower, upper[0], d)]
       case None => [])
      + MergesWith(lower, upper[1..])
  }

  /** The merged terms of two neighbouring buckets, in the order of the two
      nested forEach loops. */
  function PairMerges(group1: seq<Term>, group2: seq<Term>): seq<Term>
  {
    if group1 == [] then [] else MergesWith(group1[0], group2) + PairMerges(group1[1..], group2)
  }

  /** Every merged term of a pass from bucket pair (i, i + 1) on, in loop order. */
  function MergesFrom(groups: seq<seq<Term>>, i: nat): seq<Term>
    decreases |groups| - i
  {
    if i + 1 >= |groups| then [] else PairMerges(groups[i], groups[i + 1]) + MergesFrom(groups, i + 1)
  }

  /** Adds t at the end of bucket i unless some bucket already holds it. */
  function AddIfAbsent(newGroup: seq<seq<Term>>, i: nat, t: Term): seq<seq<Term>>
    requires i < |newGroup|
  {
    if CheckElementExistsInArray(t, newGroup) then newGroup else newGroup[i := newGroup[i] + [t]]
  }

  /** AddIfAbsent applied to the merged terms ts in order. */
  function AddAllIfAbsent(newGroup: seq<seq<Term>>, i: nat, ts: seq<Term>): (r: seq<seq<Term>>)
    requires i < |newGroup|
    ensures |r| == |newGroup|
    decreases |ts|
  {
    if ts == [] then newGroup else AddAllIfAbsent(AddIfAbsent(newGroup, i, ts[0]), i, ts[1..])
  }

  /** The outer loop from pair i on, one pair of adjacent buckets per step,
      over the sparse `newGroup` (holes are empty sequences). */
  function FillFrom(groups: seq<seq<Term>>, i: nat, newGroup: seq<seq<Term>>): (r: seq<seq<Term>>)
    requires |groups| == |newGroup| + 1
    ensures |r| == |newGroup|
    decreases |groups| - i
  {
    if i + 1 >= |groups| then newGroup
    else FillFrom(groups, i + 1, AddAllIfAbsent(newGroup, i, PairMerges(groups[i], groups[i + 1])))
  }

  /** #checkAndMergeTerms. The outer loop only pairs adjacent buckets, so the
      next round has fewer buckets than this one. */
  function CheckAndMergeTerms(groups: seq<seq<Term>>): (p: Pass)
    ensures groups != [] ==> |p.newGroup| < |groups|
  {
    var newGroup := if groups == [] then [] else FillFrom(groups, 0, seq(|groups| - 1, _ => []));
    Pass(MarkUsed(groups), DropEmpty(newGroup))
  }

  /** Every term of the buckets is shaped for round r. */
  predicate ShapedAt(groups: seq<seq<Term>>, r: nat)
  {
    forall i, t :: 0 <= i < |groups| && t in groups[i] ==> Shaped(t, r)
  }

  /** No term of the buckets is flagged. */
  predicate Unused(groups: seq<seq<Term>>)
  {
    forall i, t :: 0 <= i < |groups| && t in groups[i] ==> !t.used
  }

  /** The input of round r: shaped for round r and nothing flagged yet. */
  predicate RoundShaped(groups: seq<seq<Term>>, r: nat)
  {
    ShapedAt(groups, r) && Unused(groups)
  }

  /** Every recorded round j from `from` on holds round-j terms. */
  predicate RoundsShapedFrom(rounds: seq<seq<seq<Term>>>, from: nat)
  {
    forall j :: from <= j < |rounds| ==> ShapedAt(rounds[j], j)
  }

  /** The largest index held by any term of ts (0 for none). */
  function MaxIndex(ts: seq<Term>): nat
  {
    if ts == [] then 0
    else
      var rest := MaxIndex(ts[1..]);
      var here := if ts[0].indexes == [] then 0 else Last(ts[0].indexes);
      if here < rest then rest else here
  }

  /** #simplifyGroups(groups, rounds): one pass per round until the buckets
      are down to one or a pass merges nothing; each pass's flagged buckets are
      recorded as a round. */
  function SimplifyGroups(groups: seq<seq<Term>>, rounds: seq<seq<seq<Term>>>): (r: seq<seq<seq<Term>>>)
    requires RoundShaped(groups, |rounds|)
    ensures |r| > |rounds| && r[..|rounds|] == rounds
    ensures |groups| <= 1 ==> r == rounds + [groups]
    ensures RoundsShapedFrom(r, |rounds|)
    ensures Unused(r[|r| - 1])
    decreases |groups|
  {
    if |groups| <= 1 then
      LastRound(rounds, groups);
      rounds + [groups]
    else
      var pass := CheckAndMergeTerms(groups);
      if pass.newGroup != [] then
        NextRound(groups, |rounds|);
        var r := SimplifyGroups(pass.newGroup, rounds + [pass.groups]);
        RoundsExtend(rounds, pass.groups, r);
        r
      else
        FinalPass(groups, rounds);
        rounds + [pass.groups]
  }

  /** A pass that merges something leaves its flagged buckets shaped for
      round r and a round-(r + 1) input. */
  lemma NextRound(groups: seq<seq<Term>>, r: nat)
    requires RoundShaped(groups, r) && CheckAndMergeTerms(groups).newGroup != []
    ensures var pass := CheckAndMergeTerms(groups);
      && ShapedAt(pass.groups, r)
      && RoundShaped(pass.newGroup, r + 1)
  {
    PassFacts(groups, r);
  }

  /** A pass that merges nothing records the last round. */
  lemma FinalPass(groups: seq<seq<Term>>, rounds: seq<seq<seq<Term>>>)
    requires RoundShaped(groups, |rounds|) && CheckAndMergeTerms(groups).newGroup == []
    ensures var r := rounds + [CheckAndMergeTerms(groups).groups];
      && |r| > |rounds| && r[..|rounds|] == rounds
      && RoundsShapedFrom(r, |rounds|)
      && Unused(r[|r| - 1])
  {
    PassFacts(groups, |rounds|);
    LastRound(rounds, CheckAndMergeTerms(groups).groups);
  }

  /** What one pass of a round-r input guarantees: the flagged buckets stay
      shaped for round r; a non-empty next round is a round-(r + 1) input
      with no larger index and at least r + 1 as largest index; an empty next
      round means nothing was flagged. */
  lemma PassFacts(groups: seq<seq<Term>>, r: nat)
    requires RoundShaped(groups, r)
    ensures var pass := CheckAndMergeTerms(groups);
      && ShapedAt(pass.groups, r)
      && (pass.newGroup != [] ==>
            && RoundShaped(pass.newGroup, r + 1)
            && MaxIndex(Flatten(pass.newGroup)) <= MaxIndex(Flatten(groups))
            && r + 1 <= MaxIndex(Flatten(pass.newGroup)))
      && (pass.newGroup == [] ==> Unused(pass.groups))
  {
    MarkUsedShaped(groups, r);
    NewGroupShaped(groups, r);
    if CheckAndMergeTerms(groups).newGroup == [] {
      NoMergeNoUse(groups, r);
    }
  }

  /** Recording a last round shaped for its place and with nothing flagged. */
  lemma LastRound(rounds: seq<seq<seq<Term>>>, g: seq<seq<Term>>)
    requires ShapedAt(g, |rounds|) && Unused(g)
    ensures var r := rounds + [g];
      && |r| > |rounds| && r[..|rounds|] == rounds
      && RoundsShapedFrom(r, |rounds|)
      && Unused(r[|r| - 1])
  {
    var r := rounds + [g];
    assert r[..|rounds|] == rounds;
    assert r[|rounds|] == g;
  }

  /** The rounds recorded after `rounds + [g]` extend `rounds`, and with g
      shaped for its round so are all of them. */
  lemma RoundsExtend(rounds: seq<seq<seq<Term>>>, g: seq<seq<Term>>, r: seq<seq<seq<Term>>>)
    requires |r| > |rounds + [g]| && r[..|rounds + [g]|] == rounds + [g]
    requires RoundsShapedFrom(r, |rounds + [g]|) && ShapedAt(g, |rounds|)
    ensures |r| > |rounds| && r[..|rounds|] == rounds
    ensures RoundsShapedFrom(r, |rounds|)
  {
    assert |rounds + [g]| == |rounds| + 1;
    assert r[|rounds|] == r[..|rounds| + 1][|rounds|];
    assert r[..|rounds|] == r[..|rounds| + 1][..|rounds|];
  }

  // ---------------------------------------------------------------------------
  // Partners and used flags
  // ---------------------------------------------------------------------------

  lemma {:induction false} HasUpperPartnerIff(t: Term, upper: seq<Term>)
    ensures HasUpperPartner(t, upper) <==> exists e :: e in upper && GetDifference(t.indexes, e.indexes).Some?
  {
    if upper != [] {
      HasUpperPartnerIff(t, upper[1..]);
      assert upper == [upper[0]] + upper[1..];
    }
  }

  lemma {:induction false} HasLowerPartnerIff(lower: seq<Term>, t: Term)
    ensures HasLowerPartner(lower, t) <==> exists e :: e in lower && GetDifference(e.indexes, t.indexes).Some?
  {
    if lower != [] {
      HasLowerPartnerIff(lower[1..], t);
      assert lower == [lower[0]] + lower[1..];
    }
  }

  /** In a pass, a term becomes used exactly when it has a mergeable partner
      in the next bucket above or the previous bucket below; nothing else
      about any term changes. */
  /** t of bucket i is a parent of some term the pass forms: as the lower
      term with bucket i + 1 or as the upper term with bucket i - 1. */
  ghost predicate IsParentAt(groups: seq<seq<Term>>, i: nat, t: Term)
  {
    IsLowerParentAt(groups, i, t) || (i > 0 && IsUpperParentAt(groups, i - 1, t))
  }

  /** t of bucket i merges with some term of bucket i + 1. */
  ghost predicate IsLowerParentAt(groups: seq<seq<Term>>, i: nat, t: Term)
  {
    exists e2, c :: IsMergeAt(groups, i, t, e2, c)
  }

  /** t of bucket i + 1 merges with some term of bucket i. */
  ghost predicate IsUpperParentAt(groups: seq<seq<Term>>, i: nat, t: Term)
  {
    exists e1, c :: IsMergeAt(groups, i, e1, t, c)
  }

  /** A pass flags a term exactly when the term takes part in a merge; nothing
      else about the term changes, and the buckets keep their sizes. */
  lemma MarkUsedIff(groups: seq<seq<Term>>, i: nat, k: nat)
    requires i < |groups| && k < |groups[i]|
    ensures |MarkUsed(groups)| == |groups| && |MarkUsed(groups)[i]| == |groups[i]|
    ensures var t := groups[i][k];
      MarkUsed(groups)[i][k] == t.(used := t.used || IsParentAt(groups, i, t))
  {
    var t := groups[i][k];
    assert t in groups[i];
    if i + 1 < |groups| {
      HasUpperPartnerIff(t, groups[i + 1]);
      if HasUpperPartner(t, groups[i + 1]) {
        var e :| e in groups[i + 1] && GetDifference(t.indexes, e.indexes).Some?;
        assert IsMergeAt(groups, i, t, e, Merge(t, e, GetDifference(t.indexes, e.indexes).value));
      }
    }
    if i > 0 {
      HasLowerPartnerIff(groups[i - 1], t);
      if HasLowerPartner(groups[i - 1], t) {
        var e :| e in groups[i - 1] && GetDifference(e.indexes, t.indexes).Some?;
        assert IsMergeAt(groups, i - 1, e, t, Merge(e, t, GetDifference(e.indexes, t.indexes).value));
      }
    }
  }

  lemma MarkUsedShaped(groups: seq<seq<Term>>, r: nat)
    requires ShapedAt(groups, r)
    ensures ShapedAt(MarkUsed(groups), r)
  {
    var m := MarkUsed(groups);
    forall i, t: Term | 0 <= i < |m| && t in m[i]
      ensures Shaped(t, r)
    {
      var k :| 0 <= k < |m[i]| && m[i][k] == t;
      assert groups[i][k] in groups[i];
      assert Shaped(groups[i][k], r);
      assert t.indexes == groups[i][k].indexes && t.diff == groups[i][k].diff;
    }
  }

  // ---------------------------------------------------------------------------
  // The merged terms
  // ---------------------------------------------------------------------------

  /** t is the term the pass forms from e1 of bucket i and e2 of bucket i + 1. */
  predicate IsMergeAt(groups: seq<seq<Term>>, i: nat, e1: Term, e2: Term, t: Term)
  {
    && i + 1 < |groups|
    && e1 in groups[i]
    && e2 in groups[i + 1]
    && GetDifference(e1.indexes, e2.indexes).Some?
    && t == Merge(e1, e2, GetDifference(e1.indexes, e2.indexes).value)
  }

  /** t is the term the pass forms from e1 and e2. */
  predicate MergesInto(e1: Term, e2: Term, t: Term)
  {
    GetDifference(e1.indexes, e2.indexes).Some? && t == Merge(e1, e2, GetDifference(e1.indexes, e2.indexes).value)
  }

  lemma {:induction false} MergesWithMember(lower: Term, upper: seq<Term>, t: Term)
    ensures t in MergesWith(lower, upper) <==> exists e2 :: e2 in upper && MergesInto(lower, e2, t)
  {
    if upper != [] {
      var rest := MergesWith(lower, upper[1..]);
      MergesWithMember(lower, upper[1..], t);
      var head := match GetDifference(lower.indexes, upper[0].indexes)
        case Some(d) => [Merge(lower, upper[0], d)]
        case None => [];
      assert MergesWith(lower, upper) == head + rest;
      assert t in head <==> MergesInto(lower, upper[0], t);
      if exists e2 :: e2 in upper && MergesInto(lower, e2, t) {
        var e2 :| e2 in upper && MergesInto(lower, e2, t);
        if e2 != upper[0] {
          assert e2 in upper[1..];
        }
      }
    }
  }

  lemma {:induction false} PairMergesMember(group1: seq<Term>, group2: seq<Term>, t: Term)
    ensures t in PairMerges(group1, group2) <==> exists e1, e2 :: e1 in group1 && e2 in group2 && MergesInto(e1, e2, t)
  {
    if group1 != [] {
      var head := MergesWith(group1[0], group2);
      var rest := PairMerges(group1[1..], group2);
      PairMergesMember(group1[1..], group2, t);
      MergesWithMember(group1[0], group2, t);
      assert PairMerges(group1, group2) == head + rest;
      if t in head {
        var e2 :| e2 in group2 && MergesInto(group1[0], e2, t);
        assert group1[0] in group1;
      } else if t in rest {
        var e1, e2 :| e1 in group1[1..] && e2 in group2 && MergesInto(e1, e2, t);
        assert e1 in group1;
      }
      if exists e1, e2 :: e1 in group1 && e2 in group2 && MergesInto(e1, e2, t) {
        var e1, e2 :| e1 in group1 && e2 in group2 && MergesInto(e1, e2, t);
        if e1 != group1[0] {
          assert e1 in group1[1..];
        }
      }
    }
  }

  /** The merges of the pair of buckets (i, i + 1). */
  lemma PairMergesAt(groups: seq<seq<Term>>, i: nat, t: Term)
    requires i + 1 < |groups|
    ensures t in PairMerges(groups[i], groups[i + 1]) <==> exists e1, e2 :: IsMergeAt(groups, i, e1, e2, t)
  {
    PairMergesMember(groups[i], groups[i + 1], t);
    if t in PairMerges(groups[i], groups[i + 1]) {
      var e1, e2 :| e1 in groups[i] && e2 in groups[i + 1] && MergesInto(e1, e2, t);
      assert IsMergeAt(groups, i, e1, e2, t);
    }
    if exists e1, e2 :: IsMergeAt(groups, i, e1, e2, t) {
      var e1, e2 :| IsMergeAt(groups, i, e1, e2, t);
      assert e1 in groups[i] && e2 in groups[i + 1] && MergesInto(e1, e2, t);
    }
  }

  lemma {:induction false} MergesFromMember(groups: seq<seq<Term>>, i: nat, t: Term)
    ensures t in MergesFrom(groups, i) <==> exists j, e1, e2 :: i <= j && IsMergeAt(groups, j, e1, e2, t)
    decreases |groups| - i
  {
    if i + 1 < |groups| {
      var here := PairMerges(groups[i], groups[i + 1]);
      var later := MergesFrom(groups, i + 1);
      MergesFromMember(groups, i + 1, t);
      PairMergesAt(groups, i, t);
      assert MergesFrom(groups, i) == here + later;
      if t in here {
        var e1, e2 :| IsMergeAt(groups, i, e1, e2, t);
        assert i <= i;
      } else if t in later {
        var j, e1, e2 :| i + 1 <= j && IsMergeAt(groups, j, e1, e2, t);
        assert i <= j;
      }
      if exists j, e1, e2 :: i <= j && IsMergeAt(groups, j, e1, e2, t) {
        var j, e1, e2 :| i <= j && IsMergeAt(groups, j, e1, e2, t);
        if j == i {
          assert t in here;
        } else {
          assert t in later;
        }
      }
    }
  }

  /** The merges of a pass are exactly the terms built from a mergeable pair of
      neighbouring buckets. */
  lemma AllMergesMember(groups: seq<seq<Term>>, t: Term)
    ensures t in MergesFrom(groups, 0) <==> exists i, e1, e2 :: IsMergeAt(groups, i, e1, e2, t)
  {
    MergesFromMember(groups, 0, t);
  }

  // ---------------------------------------------------------------------------
  // Duplicate suppression
  // ---------------------------------------------------------------------------

  /** Appending xs to bucket i, with every later bucket empty, appends xs to
      the flattening. */
  lemma AppendAtFlatten(newGroup: seq<seq<Term>>, i: nat, xs: seq<Term>)
    requires i < |newGroup|
    requires forall j :: i < j < |newGroup| ==> newGroup[j] == []
    ensures Flatten(newGroup[i := newGroup[i] + xs]) == Flatten(newGroup) + xs
  {
    var n' := newGroup[i := newGroup[i] + xs];
    assert newGroup == newGroup[..i] + [newGroup[i]] + newGroup[i + 1..];
    assert n' == newGroup[..i] + [newGroup[i] + xs] + newGroup[i + 1..];
    FlattenAppend(newGroup[..i] + [newGroup[i]], newGroup[i + 1..]);
    FlattenAppend(newGroup[..i], [newGroup[i]]);
    FlattenAppend(newGroup[..i] + [newGroup[i] + xs], newGroup[i + 1..]);
    FlattenAppend(newGroup[..i], [newGroup[i] + xs]);
    FlattenEmpties(newGroup[i + 1..]);
  }

  lemma AddIfAbsentFlatten(newGroup: seq<seq<Term>>, i: nat, t: Term)
    requires i < |newGroup|
    requires forall j :: i < j < |newGroup| ==> newGroup[j] == []
    ensures Flatten(AddIfAbsent(newGroup, i, t))
         == Flatten(newGroup) + (if t in Flatten(newGroup) then [] else [t])
    ensures forall j :: i < j < |newGroup| ==> AddIfAbsent(newGroup, i, t)[j] == []
  {
    CheckElementExistsInArrayIff(t, newGroup);
    FlattenMember(newGroup, t);
    if t !in Flatten(newGroup) {
      AppendAtFlatten(newGroup, i, [t]);
    } else {
      assert Flatten(newGroup) + [] == Flatten(newGroup);
    }
  }

  lemma {:induction false} FlattenEmpties(xs: seq<seq<Term>>)
    requires forall j :: 0 <= j < |xs| ==> xs[j] == []
    ensures Flatten(xs) == []
  {
    if xs != [] {
      FlattenEmpties(xs[1..]);
    }
  }

  lemma {:induction false} AddAllIfAbsentFlatten(newGroup: seq<seq<Term>>, i: nat, ts: seq<Term>)
    requires i < |newGroup|
    requires forall j :: i < j < |newGroup| ==> newGroup[j] == []
    ensures Flatten(AddAllIfAbsent(newGroup, i, ts)) == Flatten(newGroup) + DedupFrom(Flatten(newGroup), ts)
    ensures forall j :: i < j < |newGroup| ==> AddAllIfAbsent(newGroup, i, ts)[j] == []
    decreases |ts|
  {
    if ts != [] {
      var f := Flatten(newGroup);
      var n' := AddIfAbsent(newGroup, i, ts[0]);
      AddIfAbsentFlatten(newGroup, i, ts[0]);
      AddAllIfAbsentFlatten(n', i, ts[1..]);
      var rest := AddAllIfAbsent(n', i, ts[1..]);
      assert AddAllIfAbsent(newGroup, i, ts) == rest;
      if ts[0] in f {
        assert Flatten(n') == f;
        assert DedupFrom(f, ts) == DedupFrom(f, ts[1..]);
      } else {
        assert Flatten(n') == f + [ts[0]];
        assert DedupFrom(f, ts) == [ts[0]] + DedupFrom(f + [ts[0]], ts[1..]);
        assert Flatten(rest) == f + [ts[0]] + DedupFrom(f + [ts[0]], ts[1..]);
      }
    }
  }

  /** One step of the outer loop: the merges of buckets (i, i + 1) go to
      bucket i, and the later buckets stay empty. */
  lemma FillFromStep(groups: seq<seq<Term>>, i: nat, newGroup: seq<seq<Term>>)
    requires |groups| == |newGroup| + 1 && i + 1 < |groups|
    requires forall j :: i <= j < |newGroup| ==> newGroup[j] == []
    ensures var ms := PairMerges(groups[i], groups[i + 1]);
      var n' := AddAllIfAbsent(newGroup, i, ms);
      && FillFrom(groups, i, newGroup) == FillFrom(groups, i + 1, n')
      && Flatten(n') == Flatten(newGroup) + DedupFrom(Flatten(newGroup), ms)
      && (forall j :: i + 1 <= j < |n'| ==> n'[j] == [])
  {
    AddAllIfAbsentFlatten(newGroup, i, PairMerges(groups[i], groups[i + 1]));
  }

  /** Deduplicating two runs one after the other against a growing prefix. */
  lemma DedupAfter(f: seq<Term>, xs: seq<Term>, ys: seq<Term>)
    ensures (f + DedupFrom(f, xs)) + DedupFrom(f + DedupFrom(f, xs), ys) == f + DedupFrom(f, xs + ys)
  {
    DedupConcat(f, xs, ys);
  }

  lemma {:induction false} FillFromFlatten(groups: seq<seq<Term>>, i: nat, newGroup: seq<seq<Term>>)
    requires |groups| == |newGroup| + 1
    requires forall j :: i <= j < |newGroup| ==> newGroup[j] == []
    ensures Flatten(FillFrom(groups, i, newGroup))
         == Flatten(newGroup) + DedupFrom(Flatten(newGroup), MergesFrom(groups, i))
    decreases |groups| - i
  {
    if i + 1 < |groups| {
      var ms := PairMerges(groups[i], groups[i + 1]);
      FillFromStep(groups, i, newGroup);
      FillFromFlatten(groups, i + 1, AddAllIfAbsent(newGroup, i, ms));
      DedupAfter(Flatten(newGroup), ms, MergesFrom(groups, i + 1));
      assert MergesFrom(groups, i) == ms + MergesFrom(groups, i + 1);
    } else {
      assert MergesFrom(groups, i) == [];
    }
  }

  /** The next round holds every merged term of the pass exactly once, in the
      order of first formation, and has no empty bucket. */
  lemma NewGroupSpec(groups: seq<seq<Term>>)
    ensures var ng := CheckAndMergeTerms(groups).newGroup;
      && Flatten(ng) == DedupFrom([], MergesFrom(groups, 0))
      && Distinct(Flatten(ng))
      && (forall t :: t in Flatten(ng) <==> exists i, e1, e2 :: IsMergeAt(groups, i, e1, e2, t))
      && (forall k :: 0 <= k < |ng| ==> ng[k] != [])
  {
    var ng := CheckAndMergeTerms(groups).newGroup;
    if groups != [] {
      var empty: seq<seq<Term>> := seq(|groups| - 1, _ => []);
      FillFromFlatten(groups, 0, empty);
      FlattenEmpties(empty);
      DropEmptySpec(FillFrom(groups, 0, empty));
    }
    DedupSpec([], MergesFrom(groups, 0));
    forall t
      ensures t in Flatten(ng) <==> exists i, e1, e2 :: IsMergeAt(groups, i, e1, e2, t)
    {
      AllMergesMember(groups, t);
    }
  }

  /** Adding terms to bucket i touches no other bucket. */
  lemma {:induction false} AddAllIfAbsentOther(newGroup: seq<seq<Term>>, i: nat, ts: seq<Term>, j: nat)
    requires i < |newGroup| && j < |newGroup| && j != i
    ensures AddAllIfAbsent(newGroup, i, ts)[j] == newGroup[j]
    decreases |ts|
  {
    if ts != [] {
      AddAllIfAbsentOther(AddIfAbsent(newGroup, i, ts[0]), i, ts[1..], j);
    }
  }

  /** With every later bucket empty, bucket i receives exactly the terms of
      ts not yet anywhere in the round, once each, in order. */
  lemma {:induction false} AddAllIfAbsentAt(newGroup: seq<seq<Term>>, i: nat, ts: seq<Term>)
    requires i < |newGroup|
    requires forall j :: i < j < |newGroup| ==> newGroup[j] == []
    ensures AddAllIfAbsent(newGroup, i, ts)[i] == newGroup[i] + DedupFrom(Flatten(newGroup), ts)
    decreases |ts|
  {
    if ts != [] {
      var f := Flatten(newGroup);
      var n1 := AddIfAbsent(newGroup, i, ts[0]);
      AddIfAbsentFlatten(newGroup, i, ts[0]);
      AddAllIfAbsentAt(n1, i, ts[1..]);
      assert AddAllIfAbsent(newGroup, i, ts) == AddAllIfAbsent(n1, i, ts[1..]);
      CheckElementExistsInArrayIff(ts[0], newGroup);
      FlattenMember(newGroup, ts[0]);
      if ts[0] in f {
        assert n1 == newGroup;
        assert DedupFrom(f, ts) == DedupFrom(f, ts[1..]);
      } else {
        assert n1[i] == newGroup[i] + [ts[0]];
        assert DedupFrom(f, ts) == [ts[0]] + DedupFrom(f + [ts[0]], ts[1..]);
        assert newGroup[i] + [ts[0]] + DedupFrom(f + [ts[0]], ts[1..]) == newGroup[i] + DedupFrom(f, ts);
      }
    }
  }

  /** The outer loop from i on leaves the buckets before i alone. */
  lemma {:induction false} FillFromKeeps(groups: seq<seq<Term>>, i: nat, newGroup: seq<seq<Term>>, j: nat)
    requires |groups| == |newGroup| + 1 && j < i && j < |newGroup|
    ensures FillFrom(groups, i, newGroup)[j] == newGroup[j]
    decreases |groups| - i
  {
    if i + 1 < |groups| {
      var n' := AddAllIfAbsent(newGroup, i, PairMerges(groups[i], groups[i + 1]));
      FillFromKeeps(groups, i + 1, n', j);
      AddAllIfAbsentOther(newGroup, i, PairMerges(groups[i], groups[i + 1]), j);
    }
  }

  /** The outer loop from i on leaves the first p <= i buckets alone. */
  lemma FillFromPrefix(groups: seq<seq<Term>>, i: nat, newGroup: seq<seq<Term>>, p: nat)
    requires |groups| == |newGroup| + 1 && p <= i && p <= |newGroup|
    ensures FillFrom(groups, i, newGroup)[..p] == newGroup[..p]
  {
    forall j | 0 <= j < p
      ensures FillFrom(groups, i, newGroup)[j] == newGroup[j]
    {
      FillFromKeeps(groups, i, newGroup, j);
    }
  }

  lemma AddAllIfAbsentPrefix(newGroup: seq<seq<Term>>, i: nat, ts: seq<Term>)
    requires i < |newGroup|
    ensures AddAllIfAbsent(newGroup, i, ts)[..i] == newGroup[..i]
  {
    forall j | 0 <= j < i
      ensures AddAllIfAbsent(newGroup, i, ts)[j] == newGroup[j]
    {
      AddAllIfAbsentOther(newGroup, i, ts, j);
    }
  }

  /** Empty buckets from p on add nothing to the flattening. */
  lemma FlattenPrefix(xs: seq<seq<Term>>, p: nat)
    requires p <= |xs| && forall j :: p <= j < |xs| ==> xs[j] == []
    ensures Flatten(xs[..p]) == Flatten(xs)
  {
    var tail := xs[p..];
    assert xs == xs[..p] + tail;
    FlattenAppend(xs[..p], tail);
    assert forall j :: 0 <= j < |tail| ==> tail[j] == xs[p + j];
    FlattenEmpties(tail);
  }

  /** The pair (i, i + 1) fills bucket i with its merges not yet formed
      before, and the rest of the loop leaves that bucket alone. */
  lemma FillFromFirstBucket(groups: seq<seq<Term>>, i: nat, newGroup: seq<seq<Term>>)
    requires |groups| == |newGroup| + 1
    requires forall j :: i <= j < |newGroup| ==> newGroup[j] == []
    requires i < |newGroup|
    ensures var r := FillFrom(groups, i, newGroup);
      r[i] == DedupFrom(Flatten(r[..i]), PairMerges(groups[i], groups[i + 1]))
  {
    var ms := PairMerges(groups[i], groups[i + 1]);
    var n' := AddAllIfAbsent(newGroup, i, ms);
    var r := FillFrom(groups, i, newGroup);
    assert r == FillFrom(groups, i + 1, n');
    FillFromPrefix(groups, i + 1, n', i + 1);
    assert r[..i + 1] == n'[..i + 1];
    assert r[i] == n'[i] && r[..i] == n'[..i];
    AddAllIfAbsentPrefix(newGroup, i, ms);
    FlattenPrefix(newGroup, i);
    AddAllIfAbsentAt(newGroup, i, ms);
  }

  /** Bucket k of the sparse next round holds the merges of buckets k and
      k + 1 that no earlier bucket already holds, once each, in loop order. */
  lemma {:induction false} FillFromBucket(groups: seq<seq<Term>>, i: nat, newGroup: seq<seq<Term>>, k: nat)
    requires |groups| == |newGroup| + 1
    requires forall j :: i <= j < |newGroup| ==> newGroup[j] == []
    requires i <= k < |newGroup|
    ensures var r := FillFrom(groups, i, newGroup);
      r[k] == DedupFrom(Flatten(r[..k]), PairMerges(groups[k], groups[k + 1]))
    decreases |groups| - i
  {
    if k == i {
      FillFromFirstBucket(groups, i, newGroup);
    } else {
      var ms := PairMerges(groups[i], groups[i + 1]);
      var n' := AddAllIfAbsent(newGroup, i, ms);
      assert FillFrom(groups, i, newGroup) == FillFrom(groups, i + 1, n');
      forall j | i + 1 <= j < |n'|
        ensures n'[j] == []
      {
        AddAllIfAbsentOther(newGroup, i, ms, j);
      }
      FillFromBucket(groups, i + 1, n', k);
    }
  }

  /** The next round before its holes are dropped: one bucket per pair of
      neighbouring buckets, bucket k holding the merges of buckets k and k + 1
      not already formed by an earlier pair. */
  lemma NewGroupBuckets(groups: seq<seq<Term>>)
    ensures groups != [] ==>
      var dense := FillFrom(groups, 0, seq(|groups| - 1, _ => []));
      && CheckAndMergeTerms(groups).newGroup == DropEmpty(dense)
      && |dense| == |groups| - 1
      && forall k :: 0 <= k < |dense| ==>
           dense[k] == DedupFrom(Flatten(dense[..k]), PairMerges(groups[k], groups[k + 1]))
  {
    if groups != [] {
      var empty: seq<seq<Term>> := seq(|groups| - 1, _ => []);
      var dense := FillFrom(groups, 0, empty);
      forall k | 0 <= k < |dense|
        ensures dense[k] == DedupFrom(Flatten(dense[..k]), PairMerges(groups[k], groups[k + 1]))
      {
        FillFromBucket(groups, 0, empty, k);
      }
    }
  }

  // ---------------------------------------------------------------------------
  // Shapes across rounds
  // ---------------------------------------------------------------------------

  lemma {:induction false} MaxIndexAtLeast(ts: seq<Term>, t: Term)
    requires t in ts && t.indexes != []
    ensures Last(t.indexes) <= MaxIndex(ts)
  {
    if ts[0] != t {
      MaxIndexAtLeast(ts[1..], t);
    }
  }

  lemma {:induction false} MaxIndexAtMost(ts: seq<Term>, bound: nat)
    requires forall t :: t in ts && t.indexes != [] ==> Last(t.indexes) <= bound
    ensures MaxIndex(ts) <= bound
  {
    if ts != [] {
      MaxIndexAtMost(ts[1..], bound);
    }
  }

  /** Every merged term of a round-r pass is an unused round-(r + 1) term whose
      indexes are those of its two parents. */
  lemma MergeAtShaped(groups: seq<seq<Term>>, r: nat, i: nat, e1: Term, e2: Term, t: Term)
    requires ShapedAt(groups, r) && IsMergeAt(groups, i, e1, e2, t)
    ensures Shaped(t, r + 1) && !t.used
    ensures multiset(t.indexes) == multiset(e1.indexes) + multiset(e2.indexes)
    ensures forall v :: v in t.indexes <==> v in e1.indexes || v in e2.indexes
  {
    MergeShaped(e1, e2, r);
    forall v
      ensures v in t.indexes <==> v in e1.indexes || v in e2.indexes
    {
      assert v in t.indexes <==> v in multiset(t.indexes);
      assert v in e1.indexes <==> v in multiset(e1.indexes);
      assert v in e2.indexes <==> v in multiset(e2.indexes);
    }
  }

  /** No index of a merged term exceeds the greatest index of the pass input. */
  lemma MergeAtBounded(groups: seq<seq<Term>>, r: nat, i: nat, e1: Term, e2: Term, t: Term)
    requires ShapedAt(groups, r) && IsMergeAt(groups, i, e1, e2, t)
    ensures Last(t.indexes) <= MaxIndex(Flatten(groups))
  {
    MergeAtShaped(groups, r, i, e1, e2, t);
    MergeShaped(e1, e2, r);
    GetDifferenceSpec(e1.indexes, e2.indexes);
    assert Last(t.indexes) in t.indexes;
    FlattenMember(groups, e1);
    FlattenMember(groups, e2);
    if Last(t.indexes) in e1.indexes {
      SortedLastIsGreatest(e1.indexes, Last(t.indexes));
      MaxIndexAtLeast(Flatten(groups), e1);
    } else {
      SortedLastIsGreatest(e2.indexes, Last(t.indexes));
      MaxIndexAtLeast(Flatten(groups), e2);
    }
  }

  /** Buckets of terms a round-r pass forms, none of them empty, are a
      round-(r + 1) input whose indexes stay within those of the pass input. */
  lemma MergedBucketsShaped(groups: seq<seq<Term>>, ng: seq<seq<Term>>, r: nat)
    requires ShapedAt(groups, r)
    requires forall k :: 0 <= k < |ng| ==> ng[k] != []
    requires forall t :: t in Flatten(ng) ==> exists i, e1, e2 :: IsMergeAt(groups, i, e1, e2, t)
    ensures RoundShaped(ng, r + 1)
    ensures MaxIndex(Flatten(ng)) <= MaxIndex(Flatten(groups))
    ensures ng != [] ==> r + 1 <= MaxIndex(Flatten(ng))
  {
    forall t | t in Flatten(ng)
      ensures Shaped(t, r + 1) && !t.used && Last(t.indexes) <= MaxIndex(Flatten(groups))
    {
      var i, e1, e2 :| IsMergeAt(groups, i, e1, e2, t);
      MergeAtShaped(groups, r, i, e1, e2, t);
      MergeAtBounded(groups, r, i, e1, e2, t);
    }
    forall k, t: Term | 0 <= k < |ng| && t in ng[k]
      ensures Shaped(t, r + 1) && !t.used
    {
      FlattenMember(ng, t);
    }
    MaxIndexAtMost(Flatten(ng), MaxIndex(Flatten(groups)));
    if ng != [] {
      var t := ng[0][0];
      assert t in ng[0];
      FlattenMember(ng, t);
      MaxIndexAtLeast(Flatten(ng), t);
    }
  }

  lemma NewGroupShaped(groups: seq<seq<Term>>, r: nat)
    requires ShapedAt(groups, r)
    ensures var ng := CheckAndMergeTerms(groups).newGroup;
      && RoundShaped(ng, r + 1)
      && MaxIndex(Flatten(ng)) <= MaxIndex(Flatten(groups))
      && (ng != [] ==> r + 1 <= MaxIndex(Flatten(ng)))
  {
    NewGroupSpec(groups);
    MergedBucketsShaped(groups, CheckAndMergeTerms(groups).newGroup, r);
  }

  /** A pass that forms nothing flags nothing. */
  lemma NoMergeNoUse(groups: seq<seq<Term>>, r: nat)
    requires RoundShaped(groups, r)
    requires CheckAndMergeTerms(groups).newGroup == []
    ensures Unused(MarkUsed(groups))
  {
    NewGroupSpec(groups);
    var m := MarkUsed(groups);
    forall i, t: Term | 0 <= i < |m| && t in m[i]
      ensures !t.used
    {
      var k :| 0 <= k < |m[i]| && m[i][k] == t;
      MarkUsedIff(groups, i, k);
      assert groups[i][k] in groups[i];
      ParentMerges(groups, i, groups[i][k]);
    }
  }

  /** A term that takes part in a merge puts something into the next round. */
  lemma ParentMerges(groups: seq<seq<Term>>, i: nat, t: Term)
    ensures IsParentAt(groups, i, t) ==> CheckAndMergeTerms(groups).newGroup != []
  {
    if IsParentAt(groups, i, t) {
      NewGroupSpec(groups);
      var j, e1, e2, c :| IsMergeAt(groups, j, e1, e2, c);
      assert c in Flatten(CheckAndMergeTerms(groups).newGroup);
    }
  }
}
