/*******************************************************************************
 *  `solve` of src/QuineMcCluskey.js: grouping, merge rounds, prime
 *  implicants, the chart, the cover reduction and the encoding, one after the
 *  other; and what the whole pipeline guarantees.
 *******************************************************************************/

module Solver {
  import opened Utils
  import opened Terms
  import opened Primes
  import opened Chart
  import opened Cover
  import opened Encoding

  /** #findPrimeImplicants then #addIdToPIs on the rounds of the minterms. */
  function PrimeImplicants(ms: seq<nat>): seq<PrimeImplicant>
  {
    AddIdToPIs(FindPrimeImplicants(Rounds(ms)))
  }

  /** #extractAllEPIs on the initial chart, from no essential prime implicant. */
  function Essentials(ms: seq<nat>): seq<nat>
  {
    PrimesNonEmpty(ms);
    InitialChartWellFormed(FindPrimeImplicants(Rounds(ms)));
    ExtractAllEPIs(InitialChart(PrimeImplicants(ms)), [])
  }

  /** `solve` for `new QuineMcCluskey(count, ms)`. */
  function Solve(count: nat, ms: seq<nat>): seq<string>
  {
    PrimesNonEmpty(ms);
    SelectedNonEmpty(ms);
    ConvertToBinaryRep(PrimeImplicants(ms), Essentials(ms), count)
  }

  /** The prime implicants `solve` prints. */
  function Chosen(ms: seq<nat>): seq<PrimeImplicant>
  {
    Selected(PrimeImplicants(ms), Essentials(ms))
  }

  // ---------------------------------------------------------------------------

  /** Every prime implicant holds at least one minterm. */
  lemma PrimesNonEmpty(ms: seq<nat>)
    ensures forall t :: t in FindPrimeImplicants(Rounds(ms)) ==> t.indexes != []
  {
    PrimesWithinMinterms(ms);
    forall t | t in FindPrimeImplicants(Rounds(ms))
      ensures t.indexes != []
    {
      var r: nat :| Shaped(t, r);
    }
  }

  lemma SelectedNonEmpty(ms: seq<nat>)
    ensures forall p :: p in PrimeImplicants(ms) && p.id in Essentials(ms) ==> p.term.indexes != []
  {
    var ts := FindPrimeImplicants(Rounds(ms));
    PrimesNonEmpty(ms);
    IdsAreKeys(ts);
  }

  /** The result has one string per chosen prime implicant, in the order of
      their ids, and the chosen ones are exactly the prime implicants whose id
      the cover reduction returned. */
  lemma SolveOrder(count: nat, ms: seq<nat>)
    ensures |Solve(count, ms)| == |Chosen(ms)|
    ensures forall k :: 0 <= k < |Chosen(ms)| ==>
      Chosen(ms)[k].term.indexes != [] && Solve(count, ms)[k] == Encode(Chosen(ms)[k].term, count)
    ensures forall p :: p in Chosen(ms) <==> p in PrimeImplicants(ms) && p.id in Essentials(ms)
    ensures IdsIncreasing(Chosen(ms))
  {
    var ts := FindPrimeImplicants(Rounds(ms));
    var pis := PrimeImplicants(ms);
    PrimesNonEmpty(ms);
    SelectedNonEmpty(ms);
    ConvertToBinaryRepSpec(pis, Essentials(ms), count);
    SelectedSpec(pis, Essentials(ms));
    AddIdToPIsSpec(ts);
  }

  /** The cover reduction leaves no column of the initial chart uncovered. */
  lemma EssentialsCover(ms: seq<nat>)
    ensures forall col :: col in InitialChart(PrimeImplicants(ms)).columns ==> Covered(col, Essentials(ms))
  {
    PrimesNonEmpty(ms);
    InitialChartWellFormed(FindPrimeImplicants(Rounds(ms)));
    ExtractAllEPIsSpec(InitialChart(PrimeImplicants(ms)), []);
  }

  /** Every minterm has its column in the initial chart. */
  lemma MintermColumn(ms: seq<nat>, m: nat) returns (j: nat)
    requires m in ms
    ensures j < |InitialChart(PrimeImplicants(ms)).columns|
    ensures InitialChart(PrimeImplicants(ms)).columns[j].key == m
  {
    var ts := FindPrimeImplicants(Rounds(ms));
    var c := InitialChart(PrimeImplicants(ms));
    PrimesCoverMinterms(ms);
    var t :| t in ts && m in t.indexes;
    InitialColumnOrder(ts);
    assert c == InitialChart(AddIdToPIs(ts));
    assert m in Keys(c.columns);
    KeysSpec(c.columns);
    var j' :| 0 <= j' < |c.columns| && Keys(c.columns)[j'] == m;
    j := j';
  }

  /** An id listed in the column of minterm m names a prime implicant holding m. */
  lemma ColumnIdHolds(ms: seq<nat>, j: nat, x: nat)
    requires j < |InitialChart(PrimeImplicants(ms)).columns|
    requires x in InitialChart(PrimeImplicants(ms)).columns[j].ids
    ensures 1 <= x <= |PrimeImplicants(ms)|
    ensures PrimeImplicants(ms)[x - 1].id == x
    ensures InitialChart(PrimeImplicants(ms)).columns[j].key in PrimeImplicants(ms)[x - 1].term.indexes
  {
    var ts := FindPrimeImplicants(Rounds(ms));
    InitialColumnLists(ts);
    AddIdToPIsSpec(ts);
  }

  /** A minterm is covered by a chosen prime implicant. */
  lemma ChosenCovers(ms: seq<nat>, m: nat)
    requires m in ms
    ensures exists p :: p in Chosen(ms) && m in p.term.indexes
  {
    var pis := PrimeImplicants(ms);
    var c := InitialChart(pis);
    var essentials := Essentials(ms);
    var j := MintermColumn(ms, m);
    assert c.columns[j] in c.columns;
    EssentialsCover(ms);
    assert Covered(c.columns[j], essentials);
    var x :| x in essentials && x in c.columns[j].ids;
    ColumnIdHolds(ms, j, x);
    SelectedSpec(pis, essentials);
    assert pis[x - 1] in Chosen(ms);
  }

  /** Every minterm is covered by a chosen prime implicant, and a chosen prime
      implicant covers nothing but minterms. */
  lemma SolveCovers(ms: seq<nat>)
    ensures forall m :: m in ms ==> exists p :: p in Chosen(ms) && m in p.term.indexes
    ensures forall p, v :: p in Chosen(ms) && v in p.term.indexes ==> v in ms
  {
    forall m | m in ms
      ensures exists p :: p in Chosen(ms) && m in p.term.indexes
    {
      ChosenCovers(ms, m);
    }
    forall p | p in Chosen(ms)
      ensures forall v :: v in p.term.indexes ==> v in ms
    {
      ChosenShaped(ms, p);
    }
  }

  /** A chosen prime implicant is a shaped term whose minterms are all
      minterms of the input. */
  lemma ChosenShaped(ms: seq<nat>, p: PrimeImplicant)
    requires p in Chosen(ms)
    ensures exists r: nat :: Shaped(p.term, r)
    ensures forall v :: v in p.term.indexes ==> v in ms
  {
    var ts := FindPrimeImplicants(Rounds(ms));
    var pis := PrimeImplicants(ms);
    SelectedSpec(pis, Essentials(ms));
    AddIdToPIsSpec(ts);
    PrimesWithinMinterms(ms);
    var k :| 0 <= k < |pis| && pis[k] == p;
    assert ts[k] in ts;
  }

  /** The string of one chosen prime implicant, for minterms below 2^count. */
  lemma ChosenEncoding(count: nat, ms: seq<nat>, p: PrimeImplicant)
    requires 0 < count && forall m :: m in ms ==> m < Pow2(count)
    requires p in Chosen(ms)
    ensures p.term.indexes != []
    ensures var s := Encode(p.term, count);
      && |s| == count
      && forall q :: 0 <= q < count ==>
           s[count - 1 - q] == if Pow2(q) in p.term.diff then '-' else Digit(Bit(p.term.indexes[0], q))
  {
    var t := p.term;
    ChosenShaped(ms, p);
    var r: nat :| Shaped(t, r);
    assert Last(t.indexes) in t.indexes;
    assert t.indexes[0] in t.indexes;
    EncodeSpec(t, count);
  }

  lemma ShapeAt(count: nat, ms: seq<nat>, k: nat)
    requires 0 < count && forall m :: m in ms ==> m < Pow2(count)
    requires k < |Chosen(ms)|
    ensures k < |Solve(count, ms)| && Chosen(ms)[k].term.indexes != []
    ensures |Solve(count, ms)[k]| == count
    ensures forall q :: 0 <= q < count ==>
      Solve(count, ms)[k][count - 1 - q] ==
        if Pow2(q) in Chosen(ms)[k].term.diff then '-' else Digit(Bit(Chosen(ms)[k].term.indexes[0], q))
  {
    var out := Solve(count, ms);
    var ch := Chosen(ms);
    SolveOrder(count, ms);
    assert ch[k] in ch;
    ChosenEncoding(count, ms, ch[k]);
    assert out[k] == Encode(ch[k].term, count);
  }

  /** For minterms below 2^count, count >= 1, there is one string per chosen
      prime implicant; every string has count characters; the one q places
      from the right is '-' when the chosen prime implicant merged the power
      of two 2^q, and bit q of its first minterm otherwise. */
  lemma SolveShape(count: nat, ms: seq<nat>)
    requires 0 < count && forall m :: m in ms ==> m < Pow2(count)
    ensures |Solve(count, ms)| == |Chosen(ms)|
    ensures forall k :: 0 <= k < |Chosen(ms)| ==>
      && Chosen(ms)[k].term.indexes != []
      && |Solve(count, ms)[k]| == count
      && forall q :: 0 <= q < count ==>
           Solve(count, ms)[k][count - 1 - q] ==
             if Pow2(q) in Chosen(ms)[k].term.diff then '-' else Digit(Bit(Chosen(ms)[k].term.indexes[0], q))
  {
    SolveOrder(count, ms);
    forall k | 0 <= k < |Chosen(ms)|
      ensures Chosen(ms)[k].term.indexes != []
      ensures |Solve(count, ms)[k]| == count
      ensures forall q :: 0 <= q < count ==>
        Solve(count, ms)[k][count - 1 - q] ==
          if Pow2(q) in Chosen(ms)[k].term.diff then '-' else Digit(Bit(Chosen(ms)[k].term.indexes[0], q))
    {
      ShapeAt(count, ms, k);
    }
  }
}
