/*******************************************************************************
 *  #findPrimeImplicants and #addIdToPIs (src/QuineMcCluskey.js): the terms no
 *  round merged any further, numbered p1..pN; and the two facts the chart
 *  relies on — every minterm lies in some prime implicant, and a prime
 *  implicant holds minterms only.
 *******************************************************************************/

module Primes {
  import opened Utils
  import opened Collections
  import opened Terms
  import opened Grouping
  import opened Merging

  /** A prime implicant with its id; the source's string id `p<k>` is the
      number k here. */
  datatype PrimeImplicant = PrimeImplicant(id: nat, term: Term)

  /** Keeps the terms no merge has flagged, in order. */
  function KeepUnused(ts: seq<Term>): seq<Term>
  {
    if ts == [] then [] else (if !ts[0].used then [ts[0]] else []) + KeepUnused(ts[1..])
  }

  /** #findPrimeImplicants: every round flattened twice, unused terms kept, in
      round, bucket and term order. */
  function FindPrimeImplicants(rounds: seq<seq<seq<Term>>>): seq<Term>
  {
    KeepUnused(Flatten(Flatten(rounds)))
  }

  /** #addIdToPIs: the k-th prime implicant (from 0) gets id k + 1. */
  function AddIdToPIs(ts: seq<Term>): seq<PrimeImplicant>
  {
    if ts == [] then [] else AddIdToPIs(ts[..|ts| - 1]) + [PrimeImplicant(|ts|, ts[|ts| - 1])]
  }

  /** v is an index of some term of the buckets. */
  ghost predicate Holds(groups: seq<seq<Term>>, v: nat)
  {
    exists i, t :: 0 <= i < |groups| && t in groups[i] && v in t.indexes
  }

  /** v is an index of an unused term recorded in round `from` or later. */
  ghost predicate UnusedHolder(rounds: seq<seq<seq<Term>>>, from: nat, v: nat)
  {
    exists j, i, p :: from <= j < |rounds| && 0 <= i < |rounds[j]| && p in rounds[j][i] && !p.used && v in p.indexes
  }

  // ---------------------------------------------------------------------------

  lemma {:induction false} KeepUnusedMember(ts: seq<Term>, t: Term)
    ensures t in KeepUnused(ts) <==> t in ts && !t.used
  {
    if ts != [] {
      KeepUnusedMember(ts[1..], t);
      assert ts == [ts[0]] + ts[1..];
    }
  }

  /** The prime implicants are exactly the unused terms of all rounds. */
  lemma FindPrimeImplicantsMember(rounds: seq<seq<seq<Term>>>, t: Term)
    ensures t in FindPrimeImplicants(rounds) <==>
      !t.used && exists j, i :: 0 <= j < |rounds| && 0 <= i < |rounds[j]| && t in rounds[j][i]
  {
    KeepUnusedMember(Flatten(Flatten(rounds)), t);
    FlattenMember(Flatten(rounds), t);
    if t in Flatten(Flatten(rounds)) {
      var g :| g in Flatten(rounds) && t in g;
      FlattenMember(rounds, g);
    }
    if exists j, i :: 0 <= j < |rounds| && 0 <= i < |rounds[j]| && t in rounds[j][i] {
      var j, i :| 0 <= j < |rounds| && 0 <= i < |rounds[j]| && t in rounds[j][i];
      FlattenMember(rounds, rounds[j][i]);
      assert rounds[j][i] in Flatten(rounds);
    }
  }

  /** Ids run 1..N in order, so an id names exactly one prime implicant. */
  lemma {:induction false} AddIdToPIsSpec(ts: seq<Term>)
    ensures var pis := AddIdToPIs(ts);
      && |pis| == |ts|
      && (forall k :: 0 <= k < |pis| ==> pis[k].id == k + 1 && pis[k].term == ts[k])
  {
    if ts != [] {
      AddIdToPIsSpec(ts[..|ts| - 1]);
    }
  }

  /** Two prime implicants with the same id are the same. */
  lemma IdsAreKeys(ts: seq<Term>)
    ensures forall p, q :: p in AddIdToPIs(ts) && q in AddIdToPIs(ts) && p.id == q.id ==> p == q
    ensures forall p :: p in AddIdToPIs(ts) ==> 1 <= p.id <= |ts| && p.term in ts
  {
    AddIdToPIsSpec(ts);
  }

  /** The grouping is a round-0 input holding exactly the minterms. */
  lemma GroupingIsRoundZero(ms: seq<nat>)
    ensures RoundShaped(GroupMintermIndexes(ms), 0)
    ensures forall v :: Holds(GroupMintermIndexes(ms), v) <==> v in ms
  {
    var g := GroupMintermIndexes(ms);
    GroupMintermIndexesTerms(ms);
    GroupMintermIndexesSpec(ms);
    forall i, t: Term | 0 <= i < |g| && t in g[i]
      ensures Shaped(t, 0) && !t.used && exists m :: m in ms && t == Singleton(m)
    {
      FlattenMember(g, t);
    }
    forall v | v in ms
      ensures Holds(g, v)
    {
      var j :| 0 <= j < |g| && Singleton(v) in g[j];
      assert v in Singleton(v).indexes;
    }
  }

  /** One unfolding of #simplifyGroups on two or more buckets: the flagged
      buckets are recorded, then the loop continues on the next round if the
      pass formed anything. */
  lemma SimplifyUnfold(groups: seq<seq<Term>>, rounds: seq<seq<seq<Term>>>)
    requires RoundShaped(groups, |rounds|) && |groups| >= 2
    ensures var pass := CheckAndMergeTerms(groups);
      var r := SimplifyGroups(groups, rounds);
      && |r| > |rounds|
      && r[|rounds|] == pass.groups
      && (pass.newGroup == [] ==> r == rounds + [pass.groups])
      && (pass.newGroup != [] ==>
            && RoundShaped(pass.newGroup, |rounds| + 1)
            && |pass.newGroup| < |groups|
            && r == SimplifyGroups(pass.newGroup, rounds + [pass.groups]))
  {
    var pass := CheckAndMergeTerms(groups);
    var rounds' := rounds + [pass.groups];
    PassFacts(groups, |rounds|);
    if pass.newGroup != [] {
      var r := SimplifyGroups(pass.newGroup, rounds');
      assert r[..|rounds'|] == rounds';
      assert r[|rounds|] == r[..|rounds'|][|rounds|];
    }
  }

  /** After one pass, each index of the input is held by an unused term of the
      flagged buckets or by a term of the next round. */
  lemma CoverThroughPass(groups: seq<seq<Term>>, r: nat, v: nat)
    requires RoundShaped(groups, r) && Holds(groups, v)
    ensures var pass := CheckAndMergeTerms(groups);
      || (exists i, p :: 0 <= i < |pass.groups| && p in pass.groups[i] && !p.used && v in p.indexes)
      || Holds(pass.newGroup, v)
  {
    var pass := CheckAndMergeTerms(groups);
    var ng := pass.newGroup;
    var i, t :| 0 <= i < |groups| && t in groups[i] && v in t.indexes;
    var k :| 0 <= k < |groups[i]| && groups[i][k] == t;
    MarkUsedIff(groups, i, k);
    var t' := pass.groups[i][k];
    if !t'.used {
      assert t' in pass.groups[i];
    } else {
      var c := ParentMergeHolding(groups, r, i, t, v);
      FlattenMember(ng, c);
    }
  }

  /** One round of the cover argument: an index of the input is held by an
      unused term of the round recorded at |rounds|, or it passes to the next
      round, whose indexes are held by unused terms of later rounds. */
  lemma CoverStep(groups: seq<seq<Term>>, rounds: seq<seq<seq<Term>>>, r: seq<seq<seq<Term>>>, v: nat)
    requires RoundShaped(groups, |rounds|) && Holds(groups, v)
    requires |r| > |rounds| && r[|rounds|] == CheckAndMergeTerms(groups).groups
    requires forall w :: Holds(CheckAndMergeTerms(groups).newGroup, w) ==> UnusedHolder(r, |rounds| + 1, w)
    ensures UnusedHolder(r, |rounds|, v)
  {
    var pass := CheckAndMergeTerms(groups);
    CoverThroughPass(groups, |rounds|, v);
    if exists i, p :: 0 <= i < |pass.groups| && p in pass.groups[i] && !p.used && v in p.indexes {
      var i, p :| 0 <= i < |pass.groups| && p in pass.groups[i] && !p.used && v in p.indexes;
      assert p in r[|rounds|][i];
    } else {
      var j, i, p :| |rounds| + 1 <= j < |r| && 0 <= i < |r[j]| && p in r[j][i] && !p.used && v in p.indexes;
    }
  }

  /** Every index of a flagged input term lies in an unused term of the
      rounds that follow. */
  lemma {:induction false} SimplifyCovers(groups: seq<seq<Term>>, rounds: seq<seq<seq<Term>>>)
    requires RoundShaped(groups, |rounds|)
    ensures forall v :: Holds(groups, v) ==> UnusedHolder(SimplifyGroups(groups, rounds), |rounds|, v)
    decreases |groups|
  {
    if |groups| <= 1 {
      CoverBase(groups, rounds);
    } else {
      var pass := CheckAndMergeTerms(groups);
      SimplifyUnfold(groups, rounds);
      if pass.newGroup != [] {
        SimplifyCovers(pass.newGroup, rounds + [pass.groups]);
      }
      CoverThrough(groups, rounds);
    }
  }

  /** The cover of the rounds after a pass follows from that of the rounds
      the next round records, if the pass formed anything. */
  lemma CoverThrough(groups: seq<seq<Term>>, rounds: seq<seq<seq<Term>>>)
    requires RoundShaped(groups, |rounds|) && |groups| >= 2
    requires var pass := CheckAndMergeTerms(groups);
      pass.newGroup != [] ==>
        && RoundShaped(pass.newGroup, |rounds| + 1)
        && forall w :: Holds(pass.newGroup, w) ==>
             UnusedHolder(SimplifyGroups(pass.newGroup, rounds + [pass.groups]), |rounds + [pass.groups]|, w)
    ensures forall v :: Holds(groups, v) ==> UnusedHolder(SimplifyGroups(groups, rounds), |rounds|, v)
  {
    var r := SimplifyGroups(groups, rounds);
    SimplifyUnfold(groups, rounds);
    forall v | Holds(groups, v)
      ensures UnusedHolder(r, |rounds|, v)
    {
      CoverStep(groups, rounds, r, v);
    }
  }

  lemma CoverBase(groups: seq<seq<Term>>, rounds: seq<seq<seq<Term>>>)
    requires RoundShaped(groups, |rounds|) && |groups| <= 1
    ensures forall v :: Holds(groups, v) ==> UnusedHolder(SimplifyGroups(groups, rounds), |rounds|, v)
  {
    var r := SimplifyGroups(groups, rounds);
    forall v | Holds(groups, v)
      ensures UnusedHolder(r, |rounds|, v)
    {
      var i, t :| 0 <= i < |groups| && t in groups[i] && v in t.indexes;
      assert r[|rounds|] == groups;
    }
  }

  /** A flagged term hands each of its indexes on to a term of the next round. */
  lemma ParentMergeHolding(groups: seq<seq<Term>>, r: nat, i: nat, t: Term, v: nat) returns (c: Term)
    requires RoundShaped(groups, r) && i < |groups| && t in groups[i] && v in t.indexes
    requires IsParentAt(groups, i, t)
    ensures c in Flatten(CheckAndMergeTerms(groups).newGroup) && v in c.indexes
  {
    NewGroupSpec(groups);
    if IsLowerParentAt(groups, i, t) {
      var e2, c' :| IsMergeAt(groups, i, t, e2, c');
      MergeAtShaped(groups, r, i, t, e2, c');
      c := c';
    } else {
      var e1, c' :| IsMergeAt(groups, i - 1, e1, t, c');
      MergeAtShaped(groups, r, i - 1, e1, t, c');
      c := c';
    }
  }

  /** The indexes of a pass's flagged buckets and of its next round are indexes
      of its input. */
  lemma ValuesThroughPass(groups: seq<seq<Term>>, r: nat)
    requires RoundShaped(groups, r)
    ensures var pass := CheckAndMergeTerms(groups);
      && (forall i, t, v :: 0 <= i < |pass.groups| && t in pass.groups[i] && v in t.indexes ==> Holds(groups, v))
      && (forall v :: Holds(pass.newGroup, v) ==> Holds(groups, v))
  {
    var pass := CheckAndMergeTerms(groups);
    var ng := pass.newGroup;
    NewGroupSpec(groups);
    forall i, t: Term, v | 0 <= i < |pass.groups| && t in pass.groups[i] && v in t.indexes
      ensures Holds(groups, v)
    {
      var k :| 0 <= k < |pass.groups[i]| && pass.groups[i][k] == t;
      MarkUsedIff(groups, i, k);
      assert groups[i][k] in groups[i];
    }
    forall v | Holds(ng, v)
      ensures Holds(groups, v)
    {
      var i', c: Term :| 0 <= i' < |ng| && c in ng[i'] && v in c.indexes;
      FlattenMember(ng, c);
      var g, e1, e2 :| IsMergeAt(groups, g, e1, e2, c);
      MergeAtShaped(groups, r, g, e1, e2, c);
    }
  }

  /** Every index of a term of g is an index of some term of groups. */
  ghost predicate ValuesIn(g: seq<seq<Term>>, groups: seq<seq<Term>>)
  {
    forall i, t, v :: 0 <= i < |g| && t in g[i] && v in t.indexes ==> Holds(groups, v)
  }

  lemma ValuesInTrans(g: seq<seq<Term>>, mid: seq<seq<Term>>, groups: seq<seq<Term>>)
    requires ValuesIn(g, mid) && forall v :: Holds(mid, v) ==> Holds(groups, v)
    ensures ValuesIn(g, groups)
  {
  }

  /** One round of the values argument: the round recorded at |rounds| holds
      indexes of the input, and later rounds hold indexes of the next round,
      which are indexes of the input. */
  lemma ValuesStep(groups: seq<seq<Term>>, rounds: seq<seq<seq<Term>>>, r: seq<seq<seq<Term>>>)
    requires RoundShaped(groups, |rounds|)
    requires |r| > |rounds| && r[|rounds|] == CheckAndMergeTerms(groups).groups
    requires forall j :: |rounds| + 1 <= j < |r| ==> ValuesIn(r[j], CheckAndMergeTerms(groups).newGroup)
    ensures forall j :: |rounds| <= j < |r| ==> ValuesIn(r[j], groups)
  {
    var pass := CheckAndMergeTerms(groups);
    ValuesThroughPass(groups, |rounds|);
    forall j | |rounds| <= j < |r|
      ensures ValuesIn(r[j], groups)
    {
      if j > |rounds| {
        ValuesInTrans(r[j], pass.newGroup, groups);
      }
    }
  }

  /** Every index of every recorded term is an index of the input. */
  lemma {:induction false} SimplifyValues(groups: seq<seq<Term>>, rounds: seq<seq<seq<Term>>>)
    requires RoundShaped(groups, |rounds|)
    ensures var r := SimplifyGroups(groups, rounds);
      forall j :: |rounds| <= j < |r| ==> ValuesIn(r[j], groups)
    decreases |groups|
  {
    if |groups| >= 2 {
      var pass := CheckAndMergeTerms(groups);
      if pass.newGroup != [] {
        NextRound(groups, |rounds|);
        SimplifyValues(pass.newGroup, rounds + [pass.groups]);
        ValuesContinue(groups, rounds);
      } else {
        SimplifyUnfold(groups, rounds);
        ValuesStep(groups, rounds, SimplifyGroups(groups, rounds));
      }
    } else {
      ValuesBase(groups, rounds);
    }
  }

  /** The values of the rounds after a pass that formed something follow from
      those of the rounds the next round records. */
  lemma ValuesContinue(groups: seq<seq<Term>>, rounds: seq<seq<seq<Term>>>)
    requires RoundShaped(groups, |rounds|) && |groups| >= 2
    requires CheckAndMergeTerms(groups).newGroup != []
    requires RoundShaped(CheckAndMergeTerms(groups).newGroup, |rounds| + 1)
    requires var pass := CheckAndMergeTerms(groups);
      var r := SimplifyGroups(pass.newGroup, rounds + [pass.groups]);
      forall j :: |rounds + [pass.groups]| <= j < |r| ==> ValuesIn(r[j], pass.newGroup)
    ensures var r := SimplifyGroups(groups, rounds);
      forall j :: |rounds| <= j < |r| ==> ValuesIn(r[j], groups)
  {
    SimplifyUnfold(groups, rounds);
    ValuesStep(groups, rounds, SimplifyGroups(groups, rounds));
  }

  lemma ValuesBase(groups: seq<seq<Term>>, rounds: seq<seq<seq<Term>>>)
    requires RoundShaped(groups, |rounds|) && |groups| <= 1
    ensures var r := SimplifyGroups(groups, rounds);
      forall j :: |rounds| <= j < |r| ==> ValuesIn(r[j], groups)
  {
    var r := SimplifyGroups(groups, rounds);
    assert r == rounds + [groups];
    assert ValuesIn(groups, groups);
  }

  /** The rounds #solve computes for the minterms ms. */
  function Rounds(ms: seq<nat>): seq<seq<seq<Term>>>
  {
    GroupingIsRoundZero(ms);
    SimplifyGroups(GroupMintermIndexes(ms), [])
  }

  /** Every minterm lies in some prime implicant. */
  lemma PrimesCoverMinterms(ms: seq<nat>)
    ensures forall m :: m in ms ==> exists p :: p in FindPrimeImplicants(Rounds(ms)) && m in p.indexes
  {
    var groups := GroupMintermIndexes(ms);
    GroupingIsRoundZero(ms);
    var rounds := SimplifyGroups(groups, []);
    SimplifyCovers(groups, []);
    forall m | m in ms
      ensures exists p :: p in FindPrimeImplicants(rounds) && m in p.indexes
    {
      assert Holds(groups, m);
      var j, i, p: Term :| 0 <= j < |rounds| && 0 <= i < |rounds[j]| && p in rounds[j][i] && !p.used && m in p.indexes;
      FindPrimeImplicantsMember(rounds, p);
    }
  }

  /** A prime implicant holds minterms only, and is an unused term shaped for
      the round it was recorded in. */
  lemma PrimesWithinMinterms(ms: seq<nat>)
    ensures forall p, v :: p in FindPrimeImplicants(Rounds(ms)) && v in p.indexes ==> v in ms
    ensures forall p :: p in FindPrimeImplicants(Rounds(ms)) ==> !p.used && exists r: nat :: Shaped(p, r)
  {
    var groups := GroupMintermIndexes(ms);
    GroupingIsRoundZero(ms);
    var none: seq<seq<seq<Term>>> := [];
    var rounds := SimplifyGroups(groups, none);
    SimplifyValues(groups, none);
    assert var r := SimplifyGroups(groups, none); forall j :: |none| <= j < |r| ==> ValuesIn(r[j], groups);
    assert forall j :: 0 <= j < |rounds| ==> ValuesIn(rounds[j], groups);
    forall p | p in FindPrimeImplicants(rounds)
      ensures !p.used && (forall v :: v in p.indexes ==> v in ms) && exists r: nat :: Shaped(p, r)
    {
      FindPrimeImplicantsMember(rounds, p);
      var j, i :| 0 <= j < |rounds| && 0 <= i < |rounds[j]| && p in rounds[j][i];
      assert RoundsShapedFrom(rounds, 0);
      assert ShapedAt(rounds[j], j);
      assert Shaped(p, j);
      assert |none| <= j < |rounds|;
      assert ValuesIn(rounds[j], groups);
    }
  }
}
