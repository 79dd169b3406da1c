/*******************************************************************************
 *  The prime implicant chart of src/QuineMcCluskey.js: #createRows,
 *  #groupPIsByIndexes and #createColumns, and the consistency every chart of
 *  the cover reduction keeps.
 *******************************************************************************/

module Chart {
  import opened Utils
  import opened Collections
  import opened Terms
  import opened Primes

  /** A row `{ label, colIds }` or a column `{ label, rowIds }` of the chart:
      `key` is the label (a prime implicant id for a row, a minterm for a
      column) and `ids` the labels of the lines of the other kind it meets.
      (`label` is a reserved word of Dafny.) */
  datatype Line = Line(key: nat, ids: seq<nat>)

  type Row = Line
  type Column = Line

  datatype Chart = Chart(rows: seq<Row>, columns: seq<Column>)

  function Keys(lines: seq<Line>): seq<nat>
  {
    if lines == [] then [] else [lines[0].key] + Keys(lines[1..])
  }

  /** #createRows */
  function CreateRows(pis: seq<PrimeImplicant>): seq<Row>
  {
    if pis == [] then [] else [Line(pis[0].id, pis[0].term.indexes)] + CreateRows(pis[1..])
  }

  /** Appends id to the list under key, starting an empty list for a new key. */
  function Push(obj: map<nat, seq<nat>>, key: nat, id: nat): map<nat, seq<nat>>
  {
    obj[key := (if key in obj then obj[key] else []) + [id]]
  }

  /** The inner forEach over one prime implicant's indexes. */
  function PushAll(obj: map<nat, seq<nat>>, id: nat, indexes: seq<nat>): map<nat, seq<nat>>
    decreases |indexes|
  {
    if indexes == [] then obj else PushAll(Push(obj, indexes[0], id), id, indexes[1..])
  }

  /** The outer forEach over the prime implicants. */
  function GroupFrom(obj: map<nat, seq<nat>>, pis: seq<PrimeImplicant>): map<nat, seq<nat>>
    decreases |pis|
  {
    if pis == [] then obj else GroupFrom(PushAll(obj, pis[0].id, pis[0].term.indexes), pis[1..])
  }

  /** #groupPIsByIndexes: minterm -> ids of the prime implicants covering it. */
  function GroupPIsByIndexes(pis: seq<PrimeImplicant>): map<nat, seq<nat>>
  {
    GroupFrom(map[], pis)
  }

  /** The least element of a non-empty finite set. */
  function Least(s: set<nat>): (m: nat)
    requires s != {}
    ensures m in s && forall y :: y in s ==> m <= y
  {
    HasLeast(s);
    var m :| m in s && forall y :: y in s ==> m <= y;
    m
  }

  /** `Object.keys` on an object with integer keys: the keys in ascending
      numeric order. */
  function AscendingKeys(s: set<nat>): (r: seq<nat>)
    ensures forall x :: x in r <==> x in s
    ensures forall i, j :: 0 <= i < j < |r| ==> r[i] < r[j]
    decreases s
  {
    if s == {} then []
    else
      var m := Least(s);
      [m] + AscendingKeys(s - {m})
  }

  /** #createColumns */
  function CreateColumns(pis: seq<PrimeImplicant>): seq<Column>
  {
    var numbers := GroupPIsByIndexes(pis);
    var keys := AscendingKeys(numbers.Keys);
    seq(|keys|, i requires 0 <= i < |keys| => Line(keys[i], numbers[keys[i]]))
  }

  /** The chart #solve hands to #extractAllEPIs. */
  function InitialChart(pis: seq<PrimeImplicant>): Chart
  {
    Chart(CreateRows(pis), CreateColumns(pis))
  }

  /** No line of `lines` has an empty `ids`. */
  predicate NonEmptyIds(lines: seq<Line>)
  {
    forall l :: l in lines ==> l.ids != []
  }

  /** Every id a line of `a` lists is the key of a line of `b`. */
  predicate IdsAmong(a: seq<Line>, b: seq<Line>)
  {
    forall l, v :: l in a && v in l.ids ==> v in Keys(b)
  }

  /** A line of `a` lists a line of `b` exactly when that line lists it back. */
  predicate Mutual(a: seq<Line>, b: seq<Line>)
  {
    forall x, y :: x in a && y in b ==> (y.key in x.ids <==> x.key in y.ids)
  }

  /** What every chart of the reduction satisfies: keys identify rows and
      columns, nothing is empty, every id names an existing row or column,
      and a row lists a column exactly when the column lists the row. */
  predicate WellFormed(c: Chart)
  {
    && Distinct(Keys(c.rows))
    && Distinct(Keys(c.columns))
    && NonEmptyIds(c.rows)
    && NonEmptyIds(c.columns)
    && IdsAmong(c.rows, c.columns)
    && IdsAmong(c.columns, c.rows)
    && Mutual(c.rows, c.columns)
  }

  /** Rows as columns and columns as rows. */
  function Transpose(c: Chart): Chart
  {
    Chart(c.columns, c.rows)
  }

  // ---------------------------------------------------------------------------

  lemma {:induction false} LeastWitness(s: set<nat>) returns (m: nat)
    requires s != {}
    ensures m in s && forall y :: y in s ==> m <= y
    decreases s
  {
    var x :| x in s;
    var rest := s - {x};
    if rest == {} {
      assert s == {x};
      m := x;
    } else {
      var m' := LeastWitness(rest);
      assert s == rest + {x};
      m := if x < m' then x else m';
    }
  }

  lemma HasLeast(s: set<nat>)
    requires s != {}
    ensures exists m :: m in s && forall y :: y in s ==> m <= y
  {
    var m := LeastWitness(s);
  }

  lemma SortedAppend(s: seq<nat>, x: nat)
    requires Sorted(s) && forall y :: y in s ==> y <= x
    ensures Sorted(s + [x])
  {
    var t := s + [x];
    forall i, j | 0 <= i < j < |t|
      ensures t[i] <= t[j]
    {
      if j == |s| {
        assert t[i] in s;
      }
    }
  }

  lemma {:induction false} KeysSpec(lines: seq<Line>)
    ensures |Keys(lines)| == |lines|
    ensures forall i :: 0 <= i < |lines| ==> Keys(lines)[i] == lines[i].key
  {
    if lines != [] {
      KeysSpec(lines[1..]);
    }
  }

  lemma KeysMember(lines: seq<Line>, x: nat)
    ensures x in Keys(lines) <==> exists l :: l in lines && l.key == x
  {
    KeysSpec(lines);
    if x in Keys(lines) {
      var i :| 0 <= i < |lines| && Keys(lines)[i] == x;
      assert lines[i] in lines;
    }
  }

  /** No two lines share a key, stated on positions. */
  predicate DistinctKeys(lines: seq<Line>)
  {
    forall a, b :: 0 <= a < |lines| && 0 <= b < |lines| && a != b ==> lines[a].key != lines[b].key
  }

  lemma DistinctKeysIff(lines: seq<Line>)
    ensures Distinct(Keys(lines)) <==> DistinctKeys(lines)
  {
    KeysSpec(lines);
    if Distinct(Keys(lines)) {
      forall a, b | 0 <= a < |lines| && 0 <= b < |lines| && a != b
        ensures lines[a].key != lines[b].key
      {
        if a < b {
          assert Keys(lines)[a] != Keys(lines)[b];
        } else {
          assert Keys(lines)[b] != Keys(lines)[a];
        }
      }
    }
  }

  lemma MutualSymmetric(a: seq<Line>, b: seq<Line>)
    ensures Mutual(a, b) <==> Mutual(b, a)
  {
  }

  /** Well-formedness does not tell rows from columns. */
  lemma TransposeWellFormed(c: Chart)
    ensures WellFormed(Transpose(c)) <==> WellFormed(c)
  {
    MutualSymmetric(c.rows, c.columns);
  }

  /** Row k of the chart is prime implicant k: its id and its indexes. */
  lemma {:induction false} CreateRowsSpec(pis: seq<PrimeImplicant>)
    ensures |CreateRows(pis)| == |pis|
    ensures forall k :: 0 <= k < |pis| ==> CreateRows(pis)[k] == Line(pis[k].id, pis[k].term.indexes)
  {
    if pis != [] {
      CreateRowsSpec(pis[1..]);
    }
  }

  /** One prime implicant's pushes: its id joins the list of each of its
      indexes, after everything already there. */
  lemma {:induction false} PushAllSpec(obj: map<nat, seq<nat>>, id: nat, indexes: seq<nat>)
    ensures var r := PushAll(obj, id, indexes);
      && (forall k :: k in r <==> k in obj || k in indexes)
      && (forall k, x :: k in r ==> (x in r[k] <==> (k in obj && x in obj[k]) || (k in indexes && x == id)))
      && (forall k :: k in obj && obj[k] != [] ==> r[k] != [])
      && (forall k :: k in r && k !in obj ==> r[k] != [])
    decreases |indexes|
  {
    if indexes != [] {
      PushAllSpec(Push(obj, indexes[0], id), id, indexes[1..]);
      assert indexes == [indexes[0]] + indexes[1..];
    }
  }

  /** Pushing an id no smaller than every listed id keeps every list sorted. */
  lemma {:induction false} PushAllSorted(obj: map<nat, seq<nat>>, id: nat, indexes: seq<nat>)
    requires IdsAtMost(obj, id) && AllSorted(obj)
    ensures IdsAtMost(PushAll(obj, id, indexes), id) && AllSorted(PushAll(obj, id, indexes))
    decreases |indexes|
  {
    if indexes != [] {
      var obj' := Push(obj, indexes[0], id);
      assert AllSorted(obj') by {
        forall k | k in obj'
          ensures Sorted(obj'[k])
        {
          if k == indexes[0] {
            var before := if k in obj then obj[k] else [];
            SortedAppend(before, id);
          }
        }
      }
      PushAllSorted(obj', id, indexes[1..]);
    }
  }

  /** Some prime implicant of pis covers minterm k. */
  ghost predicate CoveredBy(pis: seq<PrimeImplicant>, k: nat)
  {
    exists p :: p in pis && k in p.term.indexes
  }

  /** The prime implicant with id x in pis covers minterm k. */
  ghost predicate ListedBy(pis: seq<PrimeImplicant>, k: nat, x: nat)
  {
    exists p :: p in pis && p.id == x && k in p.term.indexes
  }

  predicate IdsAscending(pis: seq<PrimeImplicant>)
  {
    forall i, j :: 0 <= i < j < |pis| ==> pis[i].id < pis[j].id
  }

  predicate AllSorted(obj: map<nat, seq<nat>>)
  {
    forall k :: k in obj ==> Sorted(obj[k])
  }

  /** Every id listed in obj is at most b. */
  predicate IdsAtMost(obj: map<nat, seq<nat>>, b: nat)
  {
    forall k, x :: k in obj && x in obj[k] ==> x <= b
  }

  /** The object #groupPIsByIndexes builds: one key per covered minterm, whose
      list holds exactly the ids of the prime implicants covering it. */
  lemma {:induction false} GroupFromMembers(obj: map<nat, seq<nat>>, pis: seq<PrimeImplicant>)
    requires forall k :: k in obj ==> obj[k] != []
    ensures var r := GroupFrom(obj, pis);
      && (forall k :: k in r <==> k in obj || CoveredBy(pis, k))
      && (forall k, x :: k in r ==> (x in r[k] <==> (k in obj && x in obj[k]) || ListedBy(pis, k, x)))
      && (forall k :: k in r ==> r[k] != [])
    decreases |pis|
  {
    if pis != [] {
      var p := pis[0];
      var obj' := PushAll(obj, p.id, p.term.indexes);
      PushAllSpec(obj, p.id, p.term.indexes);
      GroupFromMembers(obj', pis[1..]);
      assert pis == [p] + pis[1..];
      forall k
        ensures CoveredBy(pis, k) <==> k in p.term.indexes || CoveredBy(pis[1..], k)
      {
        if CoveredBy(pis, k) {
          var q :| q in pis && k in q.term.indexes;
        }
      }
      forall k, x
        ensures ListedBy(pis, k, x) <==> (k in p.term.indexes && x == p.id) || ListedBy(pis[1..], k, x)
      {
        if ListedBy(pis, k, x) {
          var q :| q in pis && q.id == x && k in q.term.indexes;
        }
      }
    }
  }

  /** With prime implicants in ascending id order, every list of the object
      is in ascending id order. */
  lemma {:induction false} GroupFromSorted(obj: map<nat, seq<nat>>, pis: seq<PrimeImplicant>)
    requires IdsAscending(pis) && AllSorted(obj)
    requires pis != [] ==> forall k, x :: k in obj && x in obj[k] ==> x < pis[0].id
    ensures AllSorted(GroupFrom(obj, pis))
    decreases |pis|
  {
    if pis != [] {
      var p := pis[0];
      var obj' := PushAll(obj, p.id, p.term.indexes);
      PushAllSpec(obj, p.id, p.term.indexes);
      assert IdsAtMost(obj, p.id);
      PushAllSorted(obj, p.id, p.term.indexes);
      assert IdsAtMost(obj', p.id);
      if |pis| > 1 {
        assert p.id < pis[1].id;
      }
      GroupFromSorted(obj', pis[1..]);
    }
  }

  lemma GroupPIsByIndexesSpec(pis: seq<PrimeImplicant>)
    ensures var r := GroupPIsByIndexes(pis);
      && (forall k :: k in r <==> CoveredBy(pis, k))
      && (forall k, x :: k in r ==> (x in r[k] <==> ListedBy(pis, k, x)))
      && (forall k :: k in r ==> r[k] != [])
      && (IdsAscending(pis) ==> AllSorted(r))
  {
    GroupFromMembers(map[], pis);
    if IdsAscending(pis) {
      GroupFromSorted(map[], pis);
    }
  }

  /** The columns are the covered minterms, in ascending order. */
  lemma CreateColumnsKeys(pis: seq<PrimeImplicant>)
    ensures var cs := CreateColumns(pis);
      && (forall j, j' :: 0 <= j < j' < |cs| ==> cs[j].key < cs[j'].key)
      && (forall k :: k in Keys(cs) <==> CoveredBy(pis, k))
  {
    var cs := CreateColumns(pis);
    var numbers := GroupPIsByIndexes(pis);
    var keys := AscendingKeys(numbers.Keys);
    KeysSpec(cs);
    assert Keys(cs) == keys;
    GroupPIsByIndexesSpec(pis);
  }

  /** Column j lists, never empty, the ids covering its minterm; in ascending
      order when the prime implicants are. */
  lemma CreateColumnsIds(pis: seq<PrimeImplicant>)
    ensures var cs := CreateColumns(pis);
      && (forall j, x :: 0 <= j < |cs| ==> (x in cs[j].ids <==> ListedBy(pis, cs[j].key, x)))
      && (forall j :: 0 <= j < |cs| ==> cs[j].ids != [])
      && (IdsAscending(pis) ==> forall j :: 0 <= j < |cs| ==> Sorted(cs[j].ids))
  {
    GroupPIsByIndexesSpec(pis);
  }

  /** Column j of the chart is the j-th smallest covered minterm with the ids
      covering it. */
  lemma CreateColumnsSpec(pis: seq<PrimeImplicant>)
    ensures var cs := CreateColumns(pis);
      && (forall j, j' :: 0 <= j < j' < |cs| ==> cs[j].key < cs[j'].key)
      && (forall k :: k in Keys(cs) <==> CoveredBy(pis, k))
      && (forall j, x :: 0 <= j < |cs| ==> (x in cs[j].ids <==> ListedBy(pis, cs[j].key, x)))
      && (forall j :: 0 <= j < |cs| ==> cs[j].ids != [])
      && (IdsAscending(pis) ==> forall j :: 0 <= j < |cs| ==> Sorted(cs[j].ids))
  {
    CreateColumnsKeys(pis);
    CreateColumnsIds(pis);
  }

  /** Row i of the initial chart is prime implicant i + 1 with its indexes. */
  lemma InitialRows(ts: seq<Term>)
    ensures var c := InitialChart(AddIdToPIs(ts));
      && |c.rows| == |ts|
      && (forall i :: 0 <= i < |ts| ==> c.rows[i] == Line(i + 1, ts[i].indexes))
      && Distinct(Keys(c.rows))
      && (forall id :: id in Keys(c.rows) <==> 1 <= id <= |ts|)
  {
    var pis := AddIdToPIs(ts);
    var c := InitialChart(pis);
    AddIdToPIsSpec(ts);
    CreateRowsSpec(pis);
    KeysSpec(c.rows);
    forall id | 1 <= id <= |ts|
      ensures id in Keys(c.rows)
    {
      assert Keys(c.rows)[id - 1] == id;
    }
  }

  /** The columns of the initial chart are the minterms some term covers, in
      ascending order. */
  lemma InitialColumnOrder(ts: seq<Term>)
    ensures var c := InitialChart(AddIdToPIs(ts));
      && (forall j, j' :: 0 <= j < j' < |c.columns| ==> c.columns[j].key < c.columns[j'].key)
      && (forall k :: k in Keys(c.columns) <==> exists t :: t in ts && k in t.indexes)
  {
    var pis := AddIdToPIs(ts);
    AddIdToPIsSpec(ts);
    IdsAreKeys(ts);
    CreateColumnsKeys(pis);
    forall k
      ensures CoveredBy(pis, k) <==> exists t :: t in ts && k in t.indexes
    {
      if exists t :: t in ts && k in t.indexes {
        var t :| t in ts && k in t.indexes;
        var i :| 0 <= i < |ts| && ts[i] == t;
        assert pis[i] in pis;
      }
    }
  }

  /** Column j of the initial chart lists, in ascending order, the ids of
      exactly the terms whose indexes hold its minterm. */
  lemma InitialColumnLists(ts: seq<Term>)
    ensures var c := InitialChart(AddIdToPIs(ts));
      && (forall j, x :: 0 <= j < |c.columns| ==>
            (x in c.columns[j].ids <==> 1 <= x <= |ts| && c.columns[j].key in ts[x - 1].indexes))
      && (forall j :: 0 <= j < |c.columns| ==> c.columns[j].ids != [] && Sorted(c.columns[j].ids))
  {
    var pis := AddIdToPIs(ts);
    AddIdToPIsSpec(ts);
    IdsAreKeys(ts);
    CreateColumnsIds(pis);
    forall k: nat, x: nat
      ensures ListedBy(pis, k, x) <==> 1 <= x <= |ts| && k in ts[x - 1].indexes
    {
      if 1 <= x <= |ts| && k in ts[x - 1].indexes {
        assert pis[x - 1] in pis;
      }
    }
  }

  /** The columns of the initial chart are the covered minterms in ascending
      order; column j lists, in ascending order, the ids of exactly the prime
      implicants whose indexes hold its minterm. */
  lemma InitialColumns(ts: seq<Term>)
    ensures var c := InitialChart(AddIdToPIs(ts));
      && (forall j, j' :: 0 <= j < j' < |c.columns| ==> c.columns[j].key < c.columns[j'].key)
      && (forall k :: k in Keys(c.columns) <==> exists t :: t in ts && k in t.indexes)
      && (forall j, x :: 0 <= j < |c.columns| ==>
            (x in c.columns[j].ids <==> 1 <= x <= |ts| && c.columns[j].key in ts[x - 1].indexes))
      && (forall j :: 0 <= j < |c.columns| ==> c.columns[j].ids != [] && Sorted(c.columns[j].ids))
  {
    InitialColumnOrder(ts);
    InitialColumnLists(ts);
  }

  /** Every row of the initial chart lists only existing columns. */
  lemma InitialRowIds(ts: seq<Term>)
    requires forall t :: t in ts ==> t.indexes != []
    ensures var c := InitialChart(AddIdToPIs(ts));
      NonEmptyIds(c.rows) && IdsAmong(c.rows, c.columns)
  {
    var c := InitialChart(AddIdToPIs(ts));
    InitialRows(ts);
    InitialColumns(ts);
    forall l, v | l in c.rows && v in l.ids
      ensures v in Keys(c.columns)
    {
      var i :| 0 <= i < |c.rows| && c.rows[i] == l;
      assert ts[i] in ts;
    }
    forall l | l in c.rows
      ensures l.ids != []
    {
      var i :| 0 <= i < |c.rows| && c.rows[i] == l;
      assert ts[i] in ts;
    }
  }

  /** Every column of the initial chart lists only existing rows. */
  lemma InitialColumnIds(ts: seq<Term>)
    ensures var c := InitialChart(AddIdToPIs(ts));
      NonEmptyIds(c.columns) && IdsAmong(c.columns, c.rows)
  {
    var c := InitialChart(AddIdToPIs(ts));
    InitialRows(ts);
    InitialColumns(ts);
    forall l | l in c.columns
      ensures l.ids != [] && forall id :: id in l.ids ==> id in Keys(c.rows)
    {
      var j :| 0 <= j < |c.columns| && c.columns[j] == l;
    }
  }

  /** In the initial chart a row lists a column exactly when the column lists
      the row. */
  lemma InitialMutual(ts: seq<Term>)
    ensures var c := InitialChart(AddIdToPIs(ts));
      Mutual(c.rows, c.columns)
  {
    var c := InitialChart(AddIdToPIs(ts));
    forall x, y | x in c.rows && y in c.columns
      ensures y.key in x.ids <==> x.key in y.ids
    {
      var i :| 0 <= i < |c.rows| && c.rows[i] == x;
      var j :| 0 <= j < |c.columns| && c.columns[j] == y;
      InitialMutualAt(ts, i, j);
    }
  }

  lemma InitialMutualAt(ts: seq<Term>, i: nat, j: nat)
    requires i < |InitialChart(AddIdToPIs(ts)).rows| && j < |InitialChart(AddIdToPIs(ts)).columns|
    ensures var c := InitialChart(AddIdToPIs(ts));
      c.columns[j].key in c.rows[i].ids <==> c.rows[i].key in c.columns[j].ids
  {
    var c := InitialChart(AddIdToPIs(ts));
    InitialRows(ts);
    InitialColumnLists(ts);
    assert c.rows[i] == Line(i + 1, ts[i].indexes);
  }

  /** The columns of the initial chart have distinct keys. */
  lemma InitialColumnKeys(ts: seq<Term>)
    ensures Distinct(Keys(InitialChart(AddIdToPIs(ts)).columns))
  {
    var c := InitialChart(AddIdToPIs(ts));
    InitialColumns(ts);
    KeysSpec(c.columns);
  }

  /** The chart #solve builds from the prime implicants is well formed. */
  lemma InitialChartWellFormed(ts: seq<Term>)
    requires forall t :: t in ts ==> t.indexes != []
    ensures WellFormed(InitialChart(AddIdToPIs(ts)))
  {
    InitialRows(ts);
    InitialRowIds(ts);
    InitialColumnIds(ts);
    InitialMutual(ts);
    InitialColumnKeys(ts);
  }
}
