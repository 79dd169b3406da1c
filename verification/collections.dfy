/*******************************************************************************
 *  The JavaScript array and Set behaviour the engine relies on, as sequence
 *  functions: concatenating nested arrays, `filter(Boolean)` on sparse arrays,
 *  `Set.add` observed through `Array.from`, and `filter(!includes)`.
 *******************************************************************************/

module Collections {

  /** The buckets concatenated in order: one level of nesting removed. */
  function Flatten<T>(xs: seq<seq<T>>): seq<T>
  {
    if xs == [] then [] else xs[0] + Flatten(xs[1..])
  }

  /** `arr.filter(Boolean)` on a sparse array of arrays: the holes (empty inner
      sequences here) are dropped, everything else keeps its order. */
  function DropEmpty<T>(xs: seq<seq<T>>): (r: seq<seq<T>>)
    ensures |r| <= |xs|
  {
    if xs == [] then [] else (if xs[0] == [] then [] else [xs[0]]) + DropEmpty(xs[1..])
  }

  /** `set.add(x)` on a JavaScript Set read back with `Array.from`: insertion
      order, no repetition. */
  function Insert<T(==)>(s: seq<T>, x: T): seq<T>
  {
    if x in s then s else s + [x]
  }

  predicate Distinct<T(==)>(s: seq<T>)
  {
    forall i, j :: 0 <= i < j < |s| ==> s[i] != s[j]
  }

  /** The elements of xs, in order, leaving out those already in `seen` and
      every repetition of one already kept. */
  function DedupFrom<T(==)>(seen: seq<T>, xs: seq<T>): seq<T>
    decreases |xs|
  {
    if xs == [] then []
    else if xs[0] in seen then DedupFrom(seen, xs[1..])
    else [xs[0]] + DedupFrom(seen + [xs[0]], xs[1..])
  }

  /** The elements of s that do not occur in ids, in order. */
  function FilterOut(s: seq<nat>, ids: seq<nat>): seq<nat>
  {
    if s == [] then []
    else (if s[0] in ids then [] else [s[0]]) + FilterOut(s[1..], ids)
  }

  // ---------------------------------------------------------------------------

  lemma {:induction false} FlattenMember<T>(xs: seq<seq<T>>, x: T)
    ensures x in Flatten(xs) <==> exists i :: 0 <= i < |xs| && x in xs[i]
  {
    if xs != [] {
      FlattenMember(xs[1..], x);
      if exists i :: 0 <= i < |xs| && x in xs[i] {
        var i :| 0 <= i < |xs| && x in xs[i];
        if i > 0 {
          assert x in xs[1..][i - 1];
        }
      }
      if exists i :: 0 <= i < |xs[1..]| && x in xs[1..][i] {
        var i :| 0 <= i < |xs[1..]| && x in xs[1..][i];
        assert x in xs[i + 1];
      }
    }
  }

  lemma {:induction false} FlattenAppend<T>(xs: seq<seq<T>>, ys: seq<seq<T>>)
    ensures Flatten(xs + ys) == Flatten(xs) + Flatten(ys)
  {
    if xs != [] {
      assert (xs + ys)[1..] == xs[1..] + ys;
      FlattenAppend(xs[1..], ys);
    } else {
      assert xs + ys == ys;
    }
  }

  /** `filter(Boolean)` keeps every element in order and leaves no hole. */
  lemma {:induction false} DropEmptySpec<T>(xs: seq<seq<T>>)
    ensures var r := DropEmpty(xs);
      && |r| <= |xs|
      && (forall i :: 0 <= i < |r| ==> r[i] != [])
      && Flatten(r) == Flatten(xs)
      && (forall g :: g in r <==> g in xs && g != [])
  {
    if xs != [] {
      DropEmptySpec(xs[1..]);
      assert xs == [xs[0]] + xs[1..];
      var head := if xs[0] == [] then [] else [xs[0]];
      FlattenAppend(head, DropEmpty(xs[1..]));
      assert Flatten(head) == xs[0];
    }
  }

  lemma InsertSpec<T>(s: seq<T>, x: T)
    ensures Distinct(s) ==> Distinct(Insert(s, x))
    ensures forall y :: y in Insert(s, x) <==> y in s || y == x
  {
  }

  /** Deduplication keeps exactly the new elements, each once. */
  lemma {:induction false} DedupSpec<T>(seen: seq<T>, xs: seq<T>)
    ensures forall x :: x in DedupFrom(seen, xs) <==> x in xs && x !in seen
    ensures Distinct(DedupFrom(seen, xs))
    decreases |xs|
  {
    if xs != [] {
      if xs[0] in seen {
        DedupSpec(seen, xs[1..]);
        assert xs == [xs[0]] + xs[1..];
      } else {
        DedupSpec(seen + [xs[0]], xs[1..]);
        assert xs == [xs[0]] + xs[1..];
        var rest := DedupFrom(seen + [xs[0]], xs[1..]);
        assert xs[0] !in rest;
        assert DedupFrom(seen, xs) == [xs[0]] + rest;
      }
    }
  }

  lemma {:induction false} DedupConcat<T>(seen: seq<T>, xs: seq<T>, ys: seq<T>)
    ensures DedupFrom(seen, xs + ys)
         == DedupFrom(seen, xs) + DedupFrom(seen + DedupFrom(seen, xs), ys)
    decreases |xs|
  {
    if xs == [] {
      assert xs + ys == ys;
      assert seen + DedupFrom(seen, xs) == seen;
    } else {
      assert (xs + ys)[0] == xs[0];
      assert (xs + ys)[1..] == xs[1..] + ys;
      if xs[0] in seen {
        DedupConcat(seen, xs[1..], ys);
      } else {
        DedupConcat(seen + [xs[0]], xs[1..], ys);
        assert seen + [xs[0]] + DedupFrom(seen + [xs[0]], xs[1..])
            == seen + ([xs[0]] + DedupFrom(seen + [xs[0]], xs[1..]));
      }
    }
  }

  lemma DistinctAppend<T>(a: seq<T>, b: seq<T>)
    requires Distinct(a) && Distinct(b)
    requires forall x :: x in a ==> x !in b
    ensures Distinct(a + b)
  {
    forall i, j | 0 <= i < j < |a + b|
      ensures (a + b)[i] != (a + b)[j]
    {
      if j < |a| {
      } else if i < |a| {
        assert (a + b)[i] in a && (a + b)[j] in b;
      } else {
        assert (a + b)[i] == b[i - |a|] && (a + b)[j] == b[j - |a|];
      }
    }
  }

  /** Filtering removes exactly the excluded values and keeps the order. */
  lemma {:induction false} FilterOutSpec(s: seq<nat>, ids: seq<nat>)
    ensures forall x :: x in FilterOut(s, ids) <==> x in s && x !in ids
    ensures |FilterOut(s, ids)| <= |s|
  {
    if s != [] {
      FilterOutSpec(s[1..], ids);
      assert s == [s[0]] + s[1..];
    }
  }
}
