/*******************************************************************************
 *  Terms of the merge rounds and the two per-pair operations both versions of
 *  the engine share: #getDifference and the construction of a merged term.
 *******************************************************************************/

module Terms {
  import opened Wrappers
  import opened Utils

  /** A term `{ indexes, used, diff }`. `diff` lists the power-of-two
      differences merged so far; the source's `null` for a single minterm is
      the empty sequence here (a merged term always carries a non-empty list,
      so the two never meet and structural equality is unchanged). */
  datatype Term = Term(indexes: seq<nat>, used: bool, diff: seq<nat>)

  /** The term #groupMintermIndexes creates for one minterm. */
  function Singleton(m: nat): Term
  {
    Term([m], false, [])
  }

  /** The loop of #getDifference from position i on; `result` is the value
      carried from position 0. `b[i] - a[i]` is NaN in the source when b is
      shorter than a, which is `None` here. */
  function DifferenceFrom(a: seq<nat>, b: seq<nat>, i: nat, result: Option<int>): (r: Option<int>)
    requires result.Some? ==> IsPowerOfTwo(result.value)
    ensures r.Some? ==> IsPowerOfTwo(r.value)
    decreases |a| - i
  {
    if i >= |a| then result
    else
      var diff: Option<int> := if i < |b| then Some(b[i] as int - a[i]) else None;
      var isPowerOf2 := diff.Some? && IsPowerOfTwo(diff.value);
      if i == 0 then DifferenceFrom(a, b, 1, if isPowerOf2 then diff else None)
      else if result != diff || !isPowerOf2 then None
      else DifferenceFrom(a, b, i + 1, result)
  }

  /** #getDifference(arr1, arr2): the common power-of-two distance, or null.
      A power of two is positive, so the distance is a natural number. */
  function GetDifference(a: seq<nat>, b: seq<nat>): Option<nat>
  {
    var r := DifferenceFrom(a, b, 0, None);
    if r.Some? then Some(r.value as nat) else None
  }

  /** Position by position, b lies one and the same power of two above a. */
  predicate ConstantPowerOfTwoStep(a: seq<nat>, b: seq<nat>)
  {
    && |a| > 0
    && |b| >= |a|
    && IsPowerOfTwo(b[0] as int - a[0])
    && forall i :: 0 <= i < |a| ==> b[i] as int - a[i] == b[0] as int - a[0]
  }

  /** The term #checkAndMergeTerms builds from a lower term, an upper term and
      their distance d: sorted concatenated indexes, and the LOWER term's diff
      list extended by d, sorted. */
  function Merge(lower: Term, upper: Term, d: nat): Term
  {
    Term(Sort(lower.indexes + upper.indexes), false, Sort(lower.diff + [d]))
  }

  function Last(s: seq<nat>): nat
    requires |s| > 0
  {
    s[|s| - 1]
  }

  /** What every term of merge round r satisfies: 2^r sorted indexes spread
      over at least r, r diff entries, each a power of two no larger than the
      term's greatest index. */
  predicate Shaped(t: Term, r: nat)
  {
    && |t.indexes| == Pow2(r)
    && |t.diff| == r
    && Sorted(t.indexes)
    && Last(t.indexes) - t.indexes[0] >= r
    && forall d :: d in t.diff ==> IsPowerOfTwo(d) && d <= Last(t.indexes)
  }

  // ---------------------------------------------------------------------------

  lemma {:induction false} DifferenceFromNone(a: seq<nat>, b: seq<nat>, i: nat)
    requires 1 <= i
    ensures DifferenceFrom(a, b, i, None) == None
  {
  }

  /** From position i on, every b[k] lies d above a[k]. */
  predicate StepFrom(a: seq<nat>, b: seq<nat>, i: nat, d: int)
  {
    && (i < |a| ==> |a| <= |b|)
    && forall k :: i <= k < |a| ==> b[k] as int - a[k] == d
  }

  lemma StepFromExtend(a: seq<nat>, b: seq<nat>, i: nat, d: int)
    requires i < |a| && i < |b| && b[i] as int - a[i] == d
    requires StepFrom(a, b, i + 1, d)
    ensures StepFrom(a, b, i, d)
  {
    forall k | i <= k < |a|
      ensures b[k] as int - a[k] == d
    {
      if k > i {
        assert i + 1 <= k < |a|;
      }
    }
  }

  lemma {:induction false} DifferenceFromSpec(a: seq<nat>, b: seq<nat>, i: nat, d: int)
    requires 1 <= i <= |a| && IsPowerOfTwo(d)
    ensures DifferenceFrom(a, b, i, Some(d)) == if StepFrom(a, b, i, d) then Some(d) else None
    decreases |a| - i
  {
    if i < |a| {
      if i < |b| && b[i] as int - a[i] == d {
        DifferenceFromSpec(a, b, i + 1, d);
        if StepFrom(a, b, i + 1, d) {
          StepFromExtend(a, b, i, d);
        }
      } else {
        assert !(i < |b| && b[i] as int - a[i] == d);
      }
    }
  }

  /** #getDifference returns d exactly when a is non-empty and every b[i] - a[i]
      equals the same power of two d; otherwise null, also for an empty a. */
  lemma GetDifferenceSpec(a: seq<nat>, b: seq<nat>)
    ensures GetDifference(a, b)
         == if ConstantPowerOfTwoStep(a, b) then Some((b[0] as int - a[0]) as nat) else None
  {
    if |a| > 0 {
      if |b| > 0 && IsPowerOfTwo(b[0] as int - a[0]) {
        DifferenceFromSpec(a, b, 1, b[0] as int - a[0]);
        if !ConstantPowerOfTwoStep(a, b) {
          var k :| 0 <= k < |a| && !(k < |b| && b[k] as int - a[k] == b[0] as int - a[0]);
          assert k != 0;
        }
      } else {
        DifferenceFromNone(a, b, 1);
      }
    }
  }

  lemma SortedLastIsGreatest(a: seq<nat>, x: nat)
    requires Sorted(a) && x in a
    ensures x <= Last(a)
  {
  }

  /** Sorting puts the least element first and the greatest last. */
  lemma SortEnds(xs: seq<nat>, lo: nat, hi: nat)
    requires lo in xs && hi in xs
    requires forall x :: x in xs ==> lo <= x <= hi
    ensures |Sort(xs)| == |xs| && Sort(xs)[0] == lo && Last(Sort(xs)) == hi
  {
    var m := Sort(xs);
    SortSpec(xs);
    assert lo in m by {
      assert lo in multiset(xs);
    }
    assert hi in m by {
      assert hi in multiset(xs);
    }
    assert m[0] in xs by {
      assert m[0] in multiset(m);
    }
    assert Last(m) in xs by {
      assert Last(m) in multiset(m);
    }
    SortedHeadIsLeast(m, lo);
    SortedLastIsGreatest(m, hi);
  }

  /** The indexes of two terms one step d apart lie between the lower's first
      and the upper's last. */
  lemma StepBounds(a: seq<nat>, b: seq<nat>, d: int)
    requires Sorted(a) && Sorted(b) && |a| == |b| > 0 && d > 0
    requires forall k :: 0 <= k < |a| ==> b[k] as int - a[k] == d
    ensures Last(b) == Last(a) + d
    ensures forall x :: x in a + b ==> a[0] <= x <= Last(b)
  {
    forall x | x in a + b
      ensures a[0] <= x <= Last(b)
    {
      if x in a {
        var k :| 0 <= k < |a| && a[k] == x;
        assert b[k] == x + d;
      } else {
        var k :| 0 <= k < |b| && b[k] == x;
        assert a[k] + d == x;
      }
    }
  }

  lemma MergedDiffShape(diff: seq<nat>, d: nat, bound: nat)
    requires forall e :: e in diff ==> IsPowerOfTwo(e) && e <= bound
    requires IsPowerOfTwo(d) && d <= bound
    ensures |Sort(diff + [d])| == |diff| + 1
    ensures forall e :: e in Sort(diff + [d]) ==> IsPowerOfTwo(e) && e <= bound
  {
    SortSpec(diff + [d]);
    forall e | e in Sort(diff + [d])
      ensures IsPowerOfTwo(e) && e <= bound
    {
      assert e in multiset(Sort(diff + [d]));
      assert e in multiset(diff + [d]);
    }
  }

  /** Merging two round-r terms gives a round-(r + 1) term whose indexes are
      those of both parents. */
  lemma MergeShaped(lower: Term, upper: Term, r: nat)
    requires Shaped(lower, r) && Shaped(upper, r)
    requires GetDifference(lower.indexes, upper.indexes).Some?
    ensures var d := GetDifference(lower.indexes, upper.indexes).value;
      && d > 0
      && Shaped(Merge(lower, upper, d), r + 1)
      && multiset(Merge(lower, upper, d).indexes) == multiset(lower.indexes) + multiset(upper.indexes)
  {
    GetDifferenceSpec(lower.indexes, upper.indexes);
    var a, b := lower.indexes, upper.indexes;
    var d := b[0] as int - a[0];
    IsPowerOfTwoIff(d);
    StepBounds(a, b, d);
    SortEnds(a + b, a[0], Last(b));
    SortSpec(a + b);
    MergedDiffShape(lower.diff, d, Last(b));
    var t := Merge(lower, upper, d);
    assert t.indexes[0] == a[0] && Last(t.indexes) == Last(b);
    assert |t.indexes| == Pow2(r + 1);
  }
}
