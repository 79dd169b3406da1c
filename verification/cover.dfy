/*******************************************************************************
 *  The cover reduction of src/QuineMcCluskey.js: the table operations
 *  (#extractEPIs, #eliminateCols, #removeColIds, #removeFromTable,
 *  #eliminateRows, #removeRowIds), row and column dominance, the greedy
 *  choice (#findRowWithMostColIds) and the recursion that ties them together
 *  (#extractAllEPIs). Every step keeps the chart well formed, shrinks it, and
 *  loses no column: a column that leaves the chart is either covered by a
 *  selected prime implicant or represented by a column still in the chart
 *  whose rows it also has.
 *******************************************************************************/

module Cover {
  import opened Wrappers
  import opened Utils
  import opened Collections
  import opened Chart

  /** The forEach of #extractEPIs: the one id of every single-id column is
      added to the set `result`. */
  function ExtractFrom(result: seq<nat>, columns: seq<Column>): seq<nat>
    decreases |columns|
  {
    if columns == [] then result
    else
      var c := columns[0];
      ExtractFrom(if |c.ids| == 1 then Insert(result, c.ids[0]) else result, columns[1..])
  }

  /** #extractEPIs */
  function ExtractEPIs(columns: seq<Column>): seq<nat>
  {
    ExtractFrom([], columns)
  }

  /** #eliminateCols and #eliminateRows: the lines whose key is not excluded. */
  function Eliminate(lines: seq<Line>, excludeIds: seq<nat>): seq<Line>
  {
    if lines == [] then []
    else (if lines[0].key in excludeIds then [] else [lines[0]]) + Eliminate(lines[1..], excludeIds)
  }

  /** #removeColIds and #removeRowIds: the excluded ids filtered out of every
      line, and the lines left with no id dropped. */
  function RemoveIds(lines: seq<Line>, excludeIds: seq<nat>): seq<Line>
  {
    if lines == [] then []
    else
      var l := Line(lines[0].key, FilterOut(lines[0].ids, excludeIds));
      (if l.ids == [] then [] else [l]) + RemoveIds(lines[1..], excludeIds)
  }

  /** Adds each element of xs to the insertion-ordered set numbers. */
  function InsertAll(numbers: seq<nat>, xs: seq<nat>): seq<nat>
    decreases |xs|
  {
    if xs == [] then numbers else InsertAll(Insert(numbers, xs[0]), xs[1..])
  }

  /** The rows.forEach of #removeFromTable: the ids of every row whose key is
      one of the labels. */
  function CollectFrom(numbers: seq<nat>, rows: seq<Row>, labels: seq<nat>): seq<nat>
    decreases |rows|
  {
    if rows == [] then numbers
    else CollectFrom(if rows[0].key in labels then InsertAll(numbers, rows[0].ids) else numbers, rows[1..], labels)
  }

  /** The columns keyed in `ids` eliminated, and `ids` removed from the rows. */
  function DropColumns(c: Chart, ids: seq<nat>): Chart
  {
    Chart(RemoveIds(c.rows, ids), Eliminate(c.columns, ids))
  }

  /** The rows keyed in `ids` eliminated, and `ids` removed from the columns. */
  function DropRows(c: Chart, ids: seq<nat>): Chart
  {
    Chart(Eliminate(c.rows, ids), RemoveIds(c.columns, ids))
  }

  /** #removeFromTable: the columns met by the labelled rows leave the chart. */
  function RemoveFromTable(c: Chart, labels: seq<nat>): Chart
  {
    DropColumns(c, CollectFrom([], c.rows, labels))
  }

  /** The inner loop of #checkRowDominance for row i, from row j on: row i
      is marked dominated when another, unmarked row lists all its ids. */
  function RowPass(rows: seq<Row>, i: nat, j: nat, dominated: seq<nat>): seq<nat>
    requires i < |rows|
    decreases |rows| - j
  {
    if j >= |rows| then dominated
    else
      var dominated' :=
        if i != j && rows[j].key !in dominated && IsDominated(rows[i].ids, rows[j].ids)
        then Insert(dominated, rows[i].key) else dominated;
      RowPass(rows, i, j + 1, dominated')
  }

  /** The outer loop of #checkRowDominance, over rows k - 1 down to 0. */
  function RowDominanceDown(rows: seq<Row>, k: nat, dominated: seq<nat>): seq<nat>
    requires k <= |rows|
  {
    if k == 0 then dominated else RowDominanceDown(rows, k - 1, RowPass(rows, k - 1, 0, dominated))
  }

  /** #checkRowDominance: the keys of the rows found dominated. */
  function CheckRowDominance(rows: seq<Row>): seq<nat>
  {
    RowDominanceDown(rows, |rows|, [])
  }

  /** The inner loop of #checkColDominance for column i, from column j on:
      while column i is unmarked, every other column listing all its ids is
      marked dominating. */
  function ColPass(columns: seq<Column>, i: nat, j: nat, dominating: seq<nat>): seq<nat>
    requires i < |columns|
    decreases |columns| - j
  {
    if j >= |columns| then dominating
    else
      var dominating' :=
        if j != i && columns[i].key !in dominating && IsDominated(columns[i].ids, columns[j].ids)
        then Insert(dominating, columns[j].key) else dominating;
      ColPass(columns, i, j + 1, dominating')
  }

  /** The outer loop of #checkColDominance, over columns i and up. */
  function ColDominanceFrom(columns: seq<Column>, i: nat, dominating: seq<nat>): seq<nat>
    decreases |columns| - i
  {
    if i >= |columns| then dominating
    else ColDominanceFrom(columns, i + 1, ColPass(columns, i, 0, dominating))
  }

  /** #checkColDominance: the keys of the columns found dominating. */
  function CheckColDominance(columns: seq<Column>): seq<nat>
  {
    ColDominanceFrom(columns, 0, [])
  }

  /** Another row, not marked in `dominated`, lists every id row i lists. */
  ghost predicate RowDominatedBy(rows: seq<Row>, i: nat, dominated: seq<nat>)
    requires i < |rows|
  {
    exists j :: 0 <= j < |rows| && j != i && rows[j].key !in dominated && IsDominated(rows[i].ids, rows[j].ids)
  }

  /** Every id of a is an id of b: IsDominated(a, b), as a formula. */
  predicate Within(a: seq<nat>, b: seq<nat>)
  {
    forall x :: x in a ==> x in b
  }

  /** Some unmarked row lists every id `ids` lists. */
  ghost predicate RowSurvivor(rows: seq<Row>, dominated: seq<nat>, ids: seq<nat>)
  {
    exists j :: 0 <= j < |rows| && rows[j].key !in dominated && Within(ids, rows[j].ids)
  }

  /** Every marked row has an unmarked row listing all its ids. */
  ghost predicate RowSurvivors(rows: seq<Row>, dominated: seq<nat>)
  {
    forall i :: 0 <= i < |rows| && rows[i].key in dominated ==> RowSurvivor(rows, dominated, rows[i].ids)
  }

  /** Another column lists only ids column j lists. */
  ghost predicate ColDominating(columns: seq<Column>, j: nat)
    requires j < |columns|
  {
    exists i :: 0 <= i < |columns| && i != j && IsDominated(columns[i].ids, columns[j].ids)
  }

  /** Some unmarked column lists only ids `ids` lists. */
  ghost predicate ColSurvivor(columns: seq<Column>, dominating: seq<nat>, ids: seq<nat>)
  {
    exists i :: 0 <= i < |columns| && columns[i].key !in dominating && Within(columns[i].ids, ids)
  }

  /** Every marked column has an unmarked column listing only ids it lists. */
  ghost predicate ColSurvivors(columns: seq<Column>, dominating: seq<nat>)
  {
    forall j :: 0 <= j < |columns| && columns[j].key in dominating ==> ColSurvivor(columns, dominating, columns[j].ids)
  }

  // ---------------------------------------------------------------------------

  lemma DistinctCons(a: nat, s: seq<nat>)
    ensures Distinct([a] + s) <==> a !in s && Distinct(s)
  {
    var t := [a] + s;
    if a !in s && Distinct(s) {
      forall i, j | 0 <= i < j < |t|
        ensures t[i] != t[j]
      {
        if i == 0 {
          assert t[j] == s[j - 1];
        } else {
          assert t[i] == s[i - 1] && t[j] == s[j - 1];
        }
      }
    }
    if Distinct(t) {
      forall j | 0 <= j < |s|
        ensures s[j] != a
      {
        assert t[0] == a && t[j + 1] == s[j];
      }
      forall i, j | 0 <= i < j < |s|
        ensures s[i] != s[j]
      {
        assert t[i + 1] != t[j + 1];
      }
    }
  }

  lemma KeysCons(l: Line, rest: seq<Line>)
    ensures Keys([l] + rest) == [l.key] + Keys(rest)
  {
    assert ([l] + rest)[1..] == rest;
  }

  /** #extractEPIs returns, once each, exactly the ids that are alone in
      their column. */
  lemma {:induction false} ExtractFromSpec(result: seq<nat>, columns: seq<Column>)
    requires Distinct(result)
    ensures var r := ExtractFrom(result, columns);
      && Distinct(r)
      && forall x :: x in r <==> x in result || exists c :: c in columns && c.ids == [x]
    decreases |columns|
  {
    if columns != [] {
      var c := columns[0];
      var result' := if |c.ids| == 1 then Insert(result, c.ids[0]) else result;
      InsertSpec(result, if |c.ids| == 1 then c.ids[0] else 0);
      ExtractFromSpec(result', columns[1..]);
      assert columns == [c] + columns[1..];
      forall x
        ensures (exists d :: d in columns && d.ids == [x]) <==>
                c.ids == [x] || exists d :: d in columns[1..] && d.ids == [x]
      {
      }
    }
  }

  lemma ExtractEPIsSpec(columns: seq<Column>)
    ensures var r := ExtractEPIs(columns);
      && Distinct(r)
      && forall x :: x in r <==> exists c :: c in columns && c.ids == [x]
  {
    ExtractFromSpec([], columns);
  }

  /** Elimination keeps exactly the lines with a key outside the excluded
      ids, and drops at least one line when some key is excluded. */
  lemma {:induction false} EliminateSpec(lines: seq<Line>, excludeIds: seq<nat>)
    ensures var r := Eliminate(lines, excludeIds);
      && (forall l :: l in r <==> l in lines && l.key !in excludeIds)
      && |r| <= |lines|
      && ((exists l :: l in lines && l.key in excludeIds) ==> |r| < |lines|)
      && (Distinct(Keys(lines)) ==> Distinct(Keys(r)))
  {
    if lines != [] {
      var l := lines[0];
      var tail := lines[1..];
      var rest := Eliminate(tail, excludeIds);
      EliminateSpec(tail, excludeIds);
      assert lines == [l] + tail;
      KeysCons(l, tail);
      if Distinct(Keys(lines)) {
        DistinctCons(l.key, Keys(tail));
        if l.key !in excludeIds {
          assert Eliminate(lines, excludeIds) == [l] + rest;
          KeysCons(l, rest);
          KeysMember(tail, l.key);
          forall m | m in rest
            ensures m.key != l.key
          {
            assert m in tail;
          }
          KeysMember(rest, l.key);
          DistinctCons(l.key, Keys(rest));
        } else {
          assert Eliminate(lines, excludeIds) == rest;
        }
      }
    }
  }

  /** Removing ids keeps every line's key and the rest of its ids, and drops
      exactly the lines left without ids. */
  lemma {:induction false} RemoveIdsMembers(lines: seq<Line>, excludeIds: seq<nat>)
    ensures var r := RemoveIds(lines, excludeIds);
      && (forall l :: l in r <==>
            exists l0 :: l0 in lines && l == Line(l0.key, FilterOut(l0.ids, excludeIds)) && l.ids != [])
      && |r| <= |lines|
  {
    if lines != [] {
      var l := Line(lines[0].key, FilterOut(lines[0].ids, excludeIds));
      var rest := RemoveIds(lines[1..], excludeIds);
      RemoveIdsMembers(lines[1..], excludeIds);
      assert RemoveIds(lines, excludeIds) == (if l.ids == [] then [] else [l]) + rest;
      forall m | m in RemoveIds(lines, excludeIds)
        ensures exists l0 :: l0 in lines && m == Line(l0.key, FilterOut(l0.ids, excludeIds)) && m.ids != []
      {
        if m !in rest {
          assert m == l && lines[0] in lines;
        } else {
          var l0 :| l0 in lines[1..] && m == Line(l0.key, FilterOut(l0.ids, excludeIds)) && m.ids != [];
          assert l0 in lines;
        }
      }
      forall m | exists l0 :: l0 in lines && m == Line(l0.key, FilterOut(l0.ids, excludeIds)) && m.ids != []
        ensures m in RemoveIds(lines, excludeIds)
      {
        var l0 :| l0 in lines && m == Line(l0.key, FilterOut(l0.ids, excludeIds)) && m.ids != [];
        if l0 != lines[0] {
          assert l0 in lines[1..];
        }
      }
    }
  }

  lemma {:induction false} RemoveIdsDistinct(lines: seq<Line>, excludeIds: seq<nat>)
    requires Distinct(Keys(lines))
    ensures Distinct(Keys(RemoveIds(lines, excludeIds)))
  {
    if lines != [] {
      var l0 := lines[0];
      var tail := lines[1..];
      var l := Line(l0.key, FilterOut(l0.ids, excludeIds));
      var rest := RemoveIds(tail, excludeIds);
      assert lines == [l0] + tail;
      KeysCons(l0, tail);
      DistinctCons(l0.key, Keys(tail));
      RemoveIdsDistinct(tail, excludeIds);
      if l.ids != [] {
        assert RemoveIds(lines, excludeIds) == [l] + rest;
        KeysCons(l, rest);
        RemoveIdsKeys(tail, excludeIds);
        DistinctCons(l0.key, Keys(rest));
      } else {
        assert RemoveIds(lines, excludeIds) == rest;
      }
    }
  }

  /** Removing ids keeps every line's key and the rest of its ids, and drops
      exactly the lines left without ids. */
  lemma RemoveIdsSpec(lines: seq<Line>, excludeIds: seq<nat>)
    ensures var r := RemoveIds(lines, excludeIds);
      && (forall l :: l in r <==>
            exists l0 :: l0 in lines && l == Line(l0.key, FilterOut(l0.ids, excludeIds)) && l.ids != [])
      && |r| <= |lines|
      && (Distinct(Keys(lines)) ==> Distinct(Keys(r)))
  {
    RemoveIdsMembers(lines, excludeIds);
    if Distinct(Keys(lines)) {
      RemoveIdsDistinct(lines, excludeIds);
    }
  }

  lemma {:induction false} InsertAllSpec(numbers: seq<nat>, xs: seq<nat>)
    ensures forall x :: x in InsertAll(numbers, xs) <==> x in numbers || x in xs
    decreases |xs|
  {
    if xs != [] {
      InsertAllSpec(Insert(numbers, xs[0]), xs[1..]);
      assert xs == [xs[0]] + xs[1..];
    }
  }

  /** The `numbers` of #removeFromTable are exactly the ids of the labelled rows. */
  lemma {:induction false} CollectFromSpec(numbers: seq<nat>, rows: seq<Row>, labels: seq<nat>)
    ensures forall x :: x in CollectFrom(numbers, rows, labels) <==>
      x in numbers || exists r :: r in rows && r.key in labels && x in r.ids
    decreases |rows|
  {
    if rows != [] {
      var r0 := rows[0];
      InsertAllSpec(numbers, r0.ids);
      CollectFromSpec(if r0.key in labels then InsertAll(numbers, r0.ids) else numbers, rows[1..], labels);
      assert rows == [r0] + rows[1..];
    }
  }

  /** The rows left after dropping columns list only columns left. */
  lemma DropColumnsRowIds(c: Chart, ids: seq<nat>)
    requires WellFormed(c)
    ensures IdsAmong(DropColumns(c, ids).rows, DropColumns(c, ids).columns)
  {
    var d := DropColumns(c, ids);
    EliminateSpec(c.columns, ids);
    RemoveIdsSpec(c.rows, ids);
    forall l, v | l in d.rows && v in l.ids
      ensures v in Keys(d.columns)
    {
      var l0 :| l0 in c.rows && l == Line(l0.key, FilterOut(l0.ids, ids)) && l.ids != [];
      FilterOutSpec(l0.ids, ids);
      KeysMember(c.columns, v);
      var col :| col in c.columns && col.key == v;
      KeysMember(d.columns, v);
    }
  }

  /** A row the chart lists in a column that survives keeps that column. */
  lemma DropColumnsRowKept(c: Chart, ids: seq<nat>, col: Column, x: nat)
    requires WellFormed(c) && col in c.columns && col.key !in ids && x in col.ids
    ensures x in Keys(RemoveIds(c.rows, ids))
  {
    KeysMember(c.rows, x);
    var r :| r in c.rows && r.key == x;
    FilterOutSpec(r.ids, ids);
    var l := Line(r.key, FilterOut(r.ids, ids));
    assert col.key in l.ids;
    RemoveIdsMembers(c.rows, ids);
    assert l in RemoveIds(c.rows, ids);
    KeysMember(RemoveIds(c.rows, ids), x);
  }

  /** The columns left after dropping columns list only rows left. */
  lemma DropColumnsColumnIds(c: Chart, ids: seq<nat>)
    requires WellFormed(c)
    ensures IdsAmong(DropColumns(c, ids).columns, DropColumns(c, ids).rows)
  {
    var d := DropColumns(c, ids);
    EliminateSpec(c.columns, ids);
    forall col, x | col in d.columns && x in col.ids
      ensures x in Keys(d.rows)
    {
      DropColumnsRowKept(c, ids, col, x);
    }
  }

  lemma DropColumnsMutual(c: Chart, ids: seq<nat>)
    requires WellFormed(c)
    ensures Mutual(DropColumns(c, ids).rows, DropColumns(c, ids).columns)
  {
    var d := DropColumns(c, ids);
    EliminateSpec(c.columns, ids);
    RemoveIdsSpec(c.rows, ids);
    forall x, y | x in d.rows && y in d.columns
      ensures y.key in x.ids <==> x.key in y.ids
    {
      var x0 :| x0 in c.rows && x == Line(x0.key, FilterOut(x0.ids, ids)) && x.ids != [];
      FilterOutSpec(x0.ids, ids);
    }
  }

  /** Dropping any set of columns, and their keys from the rows, keeps a
      chart well formed. */
  lemma DropColumnsWellFormed(c: Chart, ids: seq<nat>)
    requires WellFormed(c)
    ensures WellFormed(DropColumns(c, ids))
  {
    EliminateSpec(c.columns, ids);
    RemoveIdsSpec(c.rows, ids);
    DropColumnsRowIds(c, ids);
    DropColumnsColumnIds(c, ids);
    DropColumnsMutual(c, ids);
  }

  /** Dropping any set of rows, and their keys from the columns, keeps a
      chart well formed. */
  lemma DropRowsWellFormed(c: Chart, ids: seq<nat>)
    requires WellFormed(c)
    ensures WellFormed(DropRows(c, ids))
  {
    TransposeWellFormed(c);
    DropColumnsWellFormed(Transpose(c), ids);
    TransposeWellFormed(DropColumns(Transpose(c), ids));
  }

  /** The inner row loop marks row i exactly when an unmarked other row
      dominates it. */
  lemma {:induction false} RowPassSpec(rows: seq<Row>, i: nat, j: nat, dominated: seq<nat>)
    requires i < |rows|
    ensures RowPass(rows, i, j, dominated)
         == if exists j' :: j <= j' < |rows| && j' != i && rows[j'].key !in dominated && IsDominated(rows[i].ids, rows[j'].ids)
            then Insert(dominated, rows[i].key) else dominated
    decreases |rows| - j
  {
    if j < |rows| {
      var hit := i != j && rows[j].key !in dominated && IsDominated(rows[i].ids, rows[j].ids);
      var dominated' := if hit then Insert(dominated, rows[i].key) else dominated;
      RowPassSpec(rows, i, j + 1, dominated');
      if hit {
        assert Insert(dominated', rows[i].key) == dominated';
      }
    }
  }

  lemma RowDominatedByAntitone(rows: seq<Row>, i: nat, small: seq<nat>, large: seq<nat>)
    requires i < |rows|
    requires forall x :: x in small ==> x in large
    ensures RowDominatedBy(rows, i, large) ==> RowDominatedBy(rows, i, small)
  {
  }

  lemma WithinTransitive(a: seq<nat>, b: seq<nat>, c: seq<nat>)
    requires Within(a, b) && Within(b, c)
    ensures Within(a, c)
  {
  }

  /** An unmarked row w listing all of `ids` is a survivor for them. */
  lemma RowSurvivorWitness(rows: seq<Row>, dominated: seq<nat>, ids: seq<nat>, w: nat)
    requires w < |rows| && rows[w].key !in dominated && Within(ids, rows[w].ids)
    ensures RowSurvivor(rows, dominated, ids)
  {
  }

  /** Marking row i, dominated by the unmarked row j, keeps a survivor for
      a row a that already had one. */
  lemma RowSurvivorStep(rows: seq<Row>, dominated: seq<nat>, i: nat, j: nat, a: nat)
    requires DistinctKeys(rows)
    requires i < |rows| && j < |rows| && i != j && a < |rows|
    requires rows[j].key !in dominated && Within(rows[i].ids, rows[j].ids)
    requires RowSurvivor(rows, dominated, rows[a].ids)
    ensures RowSurvivor(rows, Insert(dominated, rows[i].key), rows[a].ids)
  {
    var d' := Insert(dominated, rows[i].key);
    InsertSpec(dominated, rows[i].key);
    var b :| 0 <= b < |rows| && rows[b].key !in dominated && Within(rows[a].ids, rows[b].ids);
    if b == i {
      WithinTransitive(rows[a].ids, rows[i].ids, rows[j].ids);
      RowSurvivorWitness(rows, d', rows[a].ids, j);
    } else {
      RowSurvivorWitness(rows, d', rows[a].ids, b);
    }
  }

  /** Marking row i, dominated by the unmarked row j, keeps a survivor for
      every marked row. */
  lemma RowSurvivorsInsert(rows: seq<Row>, dominated: seq<nat>, i: nat, j: nat)
    requires DistinctKeys(rows) && RowSurvivors(rows, dominated)
    requires i < |rows| && j < |rows| && i != j
    requires rows[j].key !in dominated && Within(rows[i].ids, rows[j].ids)
    ensures RowSurvivors(rows, Insert(dominated, rows[i].key))
  {
    InsertSpec(dominated, rows[i].key);
    forall a | 0 <= a < |rows| && rows[a].key in Insert(dominated, rows[i].key)
      ensures RowSurvivor(rows, Insert(dominated, rows[i].key), rows[a].ids)
    {
      if a == i {
        RowSurvivorWitness(rows, Insert(dominated, rows[i].key), rows[i].ids, j);
      } else {
        RowSurvivorStep(rows, dominated, i, j, a);
      }
    }
  }

  /** The outer row loop: it only adds keys, every key it adds is a row
      dominated by a row unmarked at the start, no unmarked row among those
      visited is dominated by an unmarked row at the end, and (with distinct
      keys) every marked row keeps an unmarked row dominating it. */
  lemma {:induction false} RowDominanceDownSpec(rows: seq<Row>, k: nat, dominated: seq<nat>)
    requires k <= |rows|
    ensures var r := RowDominanceDown(rows, k, dominated);
      && (forall x :: x in dominated ==> x in r)
      && (forall x :: x in r ==>
            (x in dominated || exists i :: 0 <= i < k && rows[i].key == x && RowDominatedBy(rows, i, dominated)))
      && (forall i :: 0 <= i < k && rows[i].key !in r ==> !RowDominatedBy(rows, i, r))
      && (Distinct(dominated) ==> Distinct(r))
      && (DistinctKeys(rows) && RowSurvivors(rows, dominated) ==> RowSurvivors(rows, r))
  {
    if k > 0 {
      var i := k - 1;
      var d1 := RowPass(rows, i, 0, dominated);
      var r := RowDominanceDown(rows, k, dominated);
      RowPassSpec(rows, i, 0, dominated);
      InsertSpec(dominated, rows[i].key);
      RowDominanceDownSpec(rows, i, d1);
      assert r == RowDominanceDown(rows, i, d1);
      forall x | x in r
        ensures x in dominated || exists i' :: 0 <= i' < k && rows[i'].key == x && RowDominatedBy(rows, i', dominated)
      {
        if x !in d1 {
          var i' :| 0 <= i' < i && rows[i'].key == x && RowDominatedBy(rows, i', d1);
          RowDominatedByAntitone(rows, i', dominated, d1);
        }
      }
      forall i' | 0 <= i' < k && rows[i'].key !in r
        ensures !RowDominatedBy(rows, i', r)
      {
        if i' == i {
          RowDominatedByAntitone(rows, i, dominated, r);
        }
      }
      if DistinctKeys(rows) && RowSurvivors(rows, dominated) {
        if RowDominatedBy(rows, i, dominated) {
          var j :| 0 <= j < |rows| && j != i && rows[j].key !in dominated && IsDominated(rows[i].ids, rows[j].ids);
          IsDominatedIff(rows[i].ids, rows[j].ids);
          RowSurvivorsInsert(rows, dominated, i, j);
        }
      }
    }
  }

  /** #checkRowDominance marks, once each, only rows another row dominates;
      it leaves no unmarked row dominated by another unmarked row; and with
      distinct keys every marked row is dominated by an unmarked one. */
  lemma CheckRowDominanceSpec(rows: seq<Row>)
    ensures var d := CheckRowDominance(rows);
      && Distinct(d)
      && (forall x :: x in d ==> exists i :: 0 <= i < |rows| && rows[i].key == x && RowDominatedBy(rows, i, []))
      && (forall i :: 0 <= i < |rows| && rows[i].key !in d ==> !RowDominatedBy(rows, i, d))
      && (DistinctKeys(rows) ==> RowSurvivors(rows, d))
  {
    RowDominanceDownSpec(rows, |rows|, []);
  }

  /** An unmarked column w listing only ids of `ids` is a survivor for them. */
  lemma ColSurvivorWitness(columns: seq<Column>, dominating: seq<nat>, ids: seq<nat>, w: nat)
    requires w < |columns| && columns[w].key !in dominating && Within(columns[w].ids, ids)
    ensures ColSurvivor(columns, dominating, ids)
  {
  }

  /** Marking column j, which the unmarked column i is dominated by, keeps a
      survivor for a column b that already had one. */
  lemma ColSurvivorStep(columns: seq<Column>, dominating: seq<nat>, i: nat, j: nat, b: nat)
    requires DistinctKeys(columns)
    requires i < |columns| && j < |columns| && i != j && b < |columns|
    requires columns[i].key !in dominating && Within(columns[i].ids, columns[j].ids)
    requires ColSurvivor(columns, dominating, columns[b].ids)
    ensures ColSurvivor(columns, Insert(dominating, columns[j].key), columns[b].ids)
  {
    var d' := Insert(dominating, columns[j].key);
    InsertSpec(dominating, columns[j].key);
    var a :| 0 <= a < |columns| && columns[a].key !in dominating && Within(columns[a].ids, columns[b].ids);
    if a == j {
      WithinTransitive(columns[i].ids, columns[j].ids, columns[b].ids);
      ColSurvivorWitness(columns, d', columns[b].ids, i);
    } else {
      ColSurvivorWitness(columns, d', columns[b].ids, a);
    }
  }

  /** Marking column j, which the unmarked column i is dominated by, keeps a
      survivor for every marked column. */
  lemma ColSurvivorsInsert(columns: seq<Column>, dominating: seq<nat>, i: nat, j: nat)
    requires DistinctKeys(columns) && ColSurvivors(columns, dominating)
    requires i < |columns| && j < |columns| && i != j
    requires columns[i].key !in dominating && Within(columns[i].ids, columns[j].ids)
    ensures ColSurvivors(columns, Insert(dominating, columns[j].key))
  {
    InsertSpec(dominating, columns[j].key);
    forall b | 0 <= b < |columns| && columns[b].key in Insert(dominating, columns[j].key)
      ensures ColSurvivor(columns, Insert(dominating, columns[j].key), columns[b].ids)
    {
      if b == j {
        ColSurvivorWitness(columns, Insert(dominating, columns[j].key), columns[j].ids, i);
      } else {
        ColSurvivorStep(columns, dominating, i, j, b);
      }
    }
  }

  /** Some column from j on, other than i, has key x and lists every id
      column i lists. */
  ghost predicate MarksFrom(columns: seq<Column>, i: nat, j: nat, x: nat)
    requires i < |columns|
  {
    exists j' :: j <= j' < |columns| && j' != i && columns[j'].key == x && IsDominated(columns[i].ids, columns[j'].ids)
  }

  lemma MarksFromStep(columns: seq<Column>, i: nat, j: nat, x: nat)
    requires i < |columns| && j < |columns|
    ensures MarksFrom(columns, i, j, x) <==>
      (j != i && columns[j].key == x && IsDominated(columns[i].ids, columns[j].ids)) || MarksFrom(columns, i, j + 1, x)
  {
    if MarksFrom(columns, i, j, x) {
      var j' :| j <= j' < |columns| && j' != i && columns[j'].key == x && IsDominated(columns[i].ids, columns[j'].ids);
      if j' != j {
        assert MarksFrom(columns, i, j + 1, x);
      }
    }
  }

  /** The inner column loop: while column i is unmarked it marks exactly the
      other columns dominating it. */
  lemma {:induction false} ColPassMembers(columns: seq<Column>, i: nat, j: nat, dominating: seq<nat>)
    requires i < |columns| && DistinctKeys(columns)
    ensures forall x :: x in ColPass(columns, i, j, dominating) <==>
      x in dominating || (columns[i].key !in dominating && MarksFrom(columns, i, j, x))
    decreases |columns| - j
  {
    if j < |columns| {
      if j != i && columns[i].key !in dominating && IsDominated(columns[i].ids, columns[j].ids) {
        var d' := Insert(dominating, columns[j].key);
        InsertSpec(dominating, columns[j].key);
        assert columns[i].key !in d';
        ColPassMembers(columns, i, j + 1, d');
        assert ColPass(columns, i, j, dominating) == ColPass(columns, i, j + 1, d');
        forall x
          ensures x in ColPass(columns, i, j, dominating) <==> x in dominating || MarksFrom(columns, i, j, x)
        {
          MarksFromStep(columns, i, j, x);
        }
      } else {
        ColPassMembers(columns, i, j + 1, dominating);
        assert ColPass(columns, i, j, dominating) == ColPass(columns, i, j + 1, dominating);
        forall x
          ensures x in ColPass(columns, i, j, dominating) <==>
            x in dominating || (columns[i].key !in dominating && MarksFrom(columns, i, j, x))
        {
          MarksFromStep(columns, i, j, x);
        }
      }
    }
  }

  /** The inner column loop repeats no key. */
  lemma {:induction false} ColPassDistinct(columns: seq<Column>, i: nat, j: nat, dominating: seq<nat>)
    requires i < |columns| && Distinct(dominating)
    ensures Distinct(ColPass(columns, i, j, dominating))
    decreases |columns| - j
  {
    if j < |columns| {
      var hit := j != i && columns[i].key !in dominating && IsDominated(columns[i].ids, columns[j].ids);
      InsertSpec(dominating, columns[j].key);
      ColPassDistinct(columns, i, j + 1, if hit then Insert(dominating, columns[j].key) else dominating);
    }
  }

  /** One marking step of the inner column loop keeps a survivor for every
      marked column. */
  lemma ColPassHit(columns: seq<Column>, i: nat, j: nat, dominating: seq<nat>)
    requires i < |columns| && j < |columns| && DistinctKeys(columns) && ColSurvivors(columns, dominating)
    requires j != i && columns[i].key !in dominating && IsDominated(columns[i].ids, columns[j].ids)
    ensures ColSurvivors(columns, Insert(dominating, columns[j].key))
  {
    IsDominatedIff(columns[i].ids, columns[j].ids);
    ColSurvivorsInsert(columns, dominating, i, j);
  }

  /** The inner column loop keeps a survivor for every marked column. */
  lemma {:induction false} ColPassSurvivors(columns: seq<Column>, i: nat, j: nat, dominating: seq<nat>)
    requires i < |columns| && DistinctKeys(columns) && ColSurvivors(columns, dominating)
    ensures ColSurvivors(columns, ColPass(columns, i, j, dominating))
    decreases |columns| - j
  {
    if j < |columns| {
      var hit := j != i && columns[i].key !in dominating && IsDominated(columns[i].ids, columns[j].ids);
      var d' := if hit then Insert(dominating, columns[j].key) else dominating;
      assert ColPass(columns, i, j, dominating) == ColPass(columns, i, j + 1, d');
      if hit {
        ColPassHit(columns, i, j, dominating);
      }
      ColPassSurvivors(columns, i, j + 1, d');
    }
  }

  /** The outer column loop: it only adds keys, every key it adds is a column
      another column is dominated by, and every column visited while unmarked
      has all its dominating columns marked. */
  lemma {:induction false} ColDominanceFromSound(columns: seq<Column>, i: nat, dominating: seq<nat>)
    requires DistinctKeys(columns)
    ensures var r := ColDominanceFrom(columns, i, dominating);
      && (forall x :: x in dominating ==> x in r)
      && (forall x :: x in r ==>
            (x in dominating || exists j :: 0 <= j < |columns| && columns[j].key == x && ColDominating(columns, j)))
      && (forall a, b ::
            (i <= a < |columns| && 0 <= b < |columns| && a != b && columns[a].key !in r &&
             IsDominated(columns[a].ids, columns[b].ids)) ==> columns[b].key in r)
    decreases |columns| - i
  {
    if i < |columns| {
      var d1 := ColPass(columns, i, 0, dominating);
      var r := ColDominanceFrom(columns, i, dominating);
      ColPassMembers(columns, i, 0, dominating);
      ColDominanceFromSound(columns, i + 1, d1);
      assert r == ColDominanceFrom(columns, i + 1, d1);
      forall x | x in r
        ensures x in dominating || exists j :: 0 <= j < |columns| && columns[j].key == x && ColDominating(columns, j)
      {
        if x in d1 && x !in dominating {
          assert MarksFrom(columns, i, 0, x);
          var j' :| 0 <= j' < |columns| && j' != i && columns[j'].key == x && IsDominated(columns[i].ids, columns[j'].ids);
          assert ColDominating(columns, j');
        }
      }
      forall a, b | i <= a < |columns| && 0 <= b < |columns| && a != b && columns[a].key !in r &&
          IsDominated(columns[a].ids, columns[b].ids)
        ensures columns[b].key in r
      {
        if a == i {
          assert MarksFrom(columns, i, 0, columns[b].key);
          assert columns[b].key in d1;
        }
      }
    }
  }

  lemma {:induction false} ColDominanceFromDistinct(columns: seq<Column>, i: nat, dominating: seq<nat>)
    requires Distinct(dominating)
    ensures Distinct(ColDominanceFrom(columns, i, dominating))
    decreases |columns| - i
  {
    if i < |columns| {
      ColPassDistinct(columns, i, 0, dominating);
      ColDominanceFromDistinct(columns, i + 1, ColPass(columns, i, 0, dominating));
    }
  }

  /** With distinct keys, every column the outer loop marks keeps an unmarked
      column it dominates. */
  lemma {:induction false} ColDominanceFromSurvivors(columns: seq<Column>, i: nat, dominating: seq<nat>)
    requires DistinctKeys(columns) && ColSurvivors(columns, dominating)
    ensures ColSurvivors(columns, ColDominanceFrom(columns, i, dominating))
    decreases |columns| - i
  {
    if i < |columns| {
      ColPassSurvivors(columns, i, 0, dominating);
      ColDominanceFromSurvivors(columns, i + 1, ColPass(columns, i, 0, dominating));
    }
  }

  /** #checkColDominance, with distinct keys, marks once each only columns
      another column is dominated by; every column left unmarked has all its
      dominating columns marked; every marked column has an unmarked column
      it dominates. */
  lemma CheckColDominanceSpec(columns: seq<Column>)
    requires DistinctKeys(columns)
    ensures var e := CheckColDominance(columns);
      && Distinct(e)
      && (forall x :: x in e ==> exists j :: 0 <= j < |columns| && columns[j].key == x && ColDominating(columns, j))
      && (forall a, b ::
            (0 <= a < |columns| && 0 <= b < |columns| && a != b && columns[a].key !in e &&
             IsDominated(columns[a].ids, columns[b].ids)) ==> columns[b].key in e)
      && ColSurvivors(columns, e)
  {
    ColDominanceFromSound(columns, 0, []);
    ColDominanceFromDistinct(columns, 0, []);
    ColDominanceFromSurvivors(columns, 0, []);
  }

  // ---------------------------------------------------------------------------
  // The greedy choice and the reduction.

  /** The loop of #findRowWithMostColIds: the first row with strictly more
      ids than `maxCount` replaces `maxObj`. */
  function MostFrom(rows: seq<Row>, maxCount: nat, maxObj: Option<Row>): Option<Row>
    decreases |rows|
  {
    if rows == [] then maxObj
    else if |rows[0].ids| > maxCount then MostFrom(rows[1..], |rows[0].ids|, Some(rows[0]))
    else MostFrom(rows[1..], maxCount, maxObj)
  }

  /** #findRowWithMostColIds; `null` is None. */
  function FindRowWithMostColIds(rows: seq<Row>): Option<Row>
  {
    MostFrom(rows, 0, None)
  }

  /** The outcome of one pass of #extractAllEPIs: the chart it recurses on,
      and the labels it appends to the essential prime implicants. */
  datatype Reduction = Reduction(next: Chart, selected: seq<nat>)

  /** One pass of #extractAllEPIs, in the order of the source: essential prime
      implicants, then dominated rows, then dominating columns, then the row
      with most ids; None when the recursion stops. */
  function Step(c: Chart): Option<Reduction>
  {
    var epis := ExtractEPIs(c.columns);
    if epis != [] then Some(Reduction(RemoveFromTable(c, epis), epis))
    else
      var dominated := CheckRowDominance(c.rows);
      if dominated != [] then Some(Reduction(DropRows(c, dominated), []))
      else
        var dominating := CheckColDominance(c.columns);
        if dominating != [] then Some(Reduction(DropColumns(c, dominating), []))
        else if c.rows != [] && FindRowWithMostColIds(c.rows).Some? then
          var row := FindRowWithMostColIds(c.rows).value;
          Some(Reduction(RemoveFromTable(c, [row.key]), [row.key]))
        else None
  }

  /** Some selected label is a row the column lists. */
  ghost predicate Covered(col: Column, selected: seq<nat>)
  {
    exists x :: x in selected && x in col.ids
  }

  /** Some line of `columns` lists only rows `col` lists, so covering it
      covers `col`. */
  ghost predicate Represented(col: Column, columns: seq<Column>)
  {
    exists d :: d in columns && Within(d.ids, col.ids)
  }

  /** What one pass guarantees: the next chart is well formed and smaller,
      the selected labels are new rows of the chart, the next chart has no
      other rows, and every column is covered by the selection or
      represented in the next chart. */
  ghost predicate Progress(c: Chart, next: Chart, selected: seq<nat>)
  {
    && WellFormed(next)
    && c.rows != []
    && |next.rows| + |next.columns| < |c.rows| + |c.columns|
    && Distinct(selected)
    && (forall x :: x in selected ==> x in Keys(c.rows) && x !in Keys(next.rows))
    && (forall x :: x in Keys(next.rows) ==> x in Keys(c.rows))
    && (forall col :: col in c.columns ==> Covered(col, selected) || Represented(col, next.columns))
  }

  /** #extractAllEPIs, on a well-formed chart (the only charts it is given). */
  function ExtractAllEPIs(c: Chart, essentialPIs: seq<nat>): seq<nat>
    requires WellFormed(c)
    decreases |c.rows| + |c.columns|
  {
    match Step(c)
    case None => essentialPIs
    case Some(red) =>
      StepProgress(c);
      ExtractAllEPIs(red.next, essentialPIs + red.selected)
  }

  // ---------------------------------------------------------------------------

  /** The scan ends on null exactly when it starts on null and every row is
      empty. */
  lemma {:induction false} MostFromNone(rows: seq<Row>, maxCount: nat, maxObj: Option<Row>)
    requires maxObj.None? ==> maxCount == 0
    ensures MostFrom(rows, maxCount, maxObj).None? <==> maxObj.None? && forall k :: 0 <= k < |rows| ==> rows[k].ids == []
    decreases |rows|
  {
    if rows != [] {
      var tail := rows[1..];
      assert forall k :: 0 < k < |rows| ==> rows[k] == tail[k - 1];
      if |rows[0].ids| > maxCount {
        MostFromNone(tail, |rows[0].ids|, Some(rows[0]));
      } else {
        MostFromNone(tail, maxCount, maxObj);
      }
    }
  }

  /** The row the scan ends on has at least as many ids as any row scanned
      and as the count it started from. */
  lemma {:induction false} MostFromBound(rows: seq<Row>, maxCount: nat, maxObj: Option<Row>)
    requires maxObj.Some? ==> |maxObj.value.ids| == maxCount
    ensures var r := MostFrom(rows, maxCount, maxObj);
      r.Some? ==> maxCount <= |r.value.ids| && forall k :: 0 <= k < |rows| ==> |rows[k].ids| <= |r.value.ids|
    decreases |rows|
  {
    if rows != [] {
      var tail := rows[1..];
      assert forall k :: 0 < k < |rows| ==> rows[k] == tail[k - 1];
      if |rows[0].ids| > maxCount {
        MostFromBound(tail, |rows[0].ids|, Some(rows[0]));
      } else {
        MostFromBound(tail, maxCount, maxObj);
      }
    }
  }

  /** Row k has more than `count` ids and more than every row before it. */
  ghost predicate FirstWithMore(rows: seq<Row>, count: nat, k: nat)
  {
    && k < |rows|
    && count < |rows[k].ids|
    && forall m :: 0 <= m < k ==> |rows[m].ids| < |rows[k].ids|
  }

  lemma FirstWithMoreShift(rows: seq<Row>, count: nat, count': nat, k: nat)
    requires rows != [] && FirstWithMore(rows[1..], count', k)
    requires |rows[0].ids| <= count' && count <= count'
    ensures FirstWithMore(rows, count, k + 1) && rows[k + 1] == rows[1..][k]
  {
    forall m | 0 <= m < k + 1
      ensures |rows[m].ids| < |rows[k + 1].ids|
    {
      if m > 0 {
        assert rows[m] == rows[1..][m - 1];
      }
    }
  }

  /** The row the scan ends on is the one it started on, when no row has more
      ids, and otherwise the first scanned row with the most ids. */
  lemma {:induction false} MostFromFirst(rows: seq<Row>, maxCount: nat, maxObj: Option<Row>)
    requires maxObj.Some? ==> |maxObj.value.ids| == maxCount
    ensures var r := MostFrom(rows, maxCount, maxObj);
      r.Some? ==>
        (r == maxObj && forall k :: 0 <= k < |rows| ==> |rows[k].ids| <= maxCount) ||
        exists k: nat :: FirstWithMore(rows, maxCount, k) && rows[k] == r.value
    decreases |rows|
  {
    if rows != [] {
      var tail := rows[1..];
      var r := MostFrom(rows, maxCount, maxObj);
      if |rows[0].ids| > maxCount {
        var c := |rows[0].ids|;
        assert r == MostFrom(tail, c, Some(rows[0]));
        MostFromFirst(tail, c, Some(rows[0]));
        if r.Some? {
          if exists k: nat :: FirstWithMore(tail, c, k) && tail[k] == r.value {
            var k: nat :| FirstWithMore(tail, c, k) && tail[k] == r.value;
            FirstWithMoreShift(rows, maxCount, c, k);
          } else {
            assert FirstWithMore(rows, maxCount, 0) && rows[0] == r.value;
          }
        }
      } else {
        assert r == MostFrom(tail, maxCount, maxObj);
        MostFromFirst(tail, maxCount, maxObj);
        if r.Some? {
          if exists k: nat :: FirstWithMore(tail, maxCount, k) && tail[k] == r.value {
            var k: nat :| FirstWithMore(tail, maxCount, k) && tail[k] == r.value;
            FirstWithMoreShift(rows, maxCount, maxCount, k);
          } else {
            forall k | 0 <= k < |rows|
              ensures |rows[k].ids| <= maxCount
            {
              if k > 0 {
                assert rows[k] == tail[k - 1];
              }
            }
          }
        }
      }
    }
  }

  /** #findRowWithMostColIds returns null exactly when every row is empty, and
      otherwise the first row with the most ids. */
  lemma MostFromSpec(rows: seq<Row>, maxCount: nat, maxObj: Option<Row>)
    requires maxObj.None? ==> maxCount == 0
    requires maxObj.Some? ==> |maxObj.value.ids| == maxCount
    ensures var r := MostFrom(rows, maxCount, maxObj);
      && (r.None? <==> maxObj.None? && forall k :: 0 <= k < |rows| ==> rows[k].ids == [])
      && (r.Some? ==> maxCount <= |r.value.ids| && forall k :: 0 <= k < |rows| ==> |rows[k].ids| <= |r.value.ids|)
      && (r.Some? ==>
            (r == maxObj && forall k :: 0 <= k < |rows| ==> |rows[k].ids| <= maxCount) ||
            exists k :: 0 <= k < |rows| && rows[k] == r.value && maxCount < |rows[k].ids| &&
              forall m :: 0 <= m < k ==> |rows[m].ids| < |rows[k].ids|)
  {
    MostFromNone(rows, maxCount, maxObj);
    MostFromBound(rows, maxCount, maxObj);
    MostFromFirst(rows, maxCount, maxObj);
  }

  lemma FindRowWithMostColIdsSpec(rows: seq<Row>)
    ensures var r := FindRowWithMostColIds(rows);
      && (r.None? <==> forall k :: 0 <= k < |rows| ==> rows[k].ids == [])
      && (r.Some? ==>
            exists k :: (0 <= k < |rows| && rows[k] == r.value &&
              (forall m :: 0 <= m < |rows| ==> |rows[m].ids| <= |rows[k].ids|) &&
              (forall m :: 0 <= m < k ==> |rows[m].ids| < |rows[k].ids|)))
  {
    MostFromSpec(rows, 0, None);
  }

  lemma WithinReflexive(a: seq<nat>)
    ensures Within(a, a)
  {
  }

  /** A chart with no row has no column. */
  lemma NoRowsNoColumns(c: Chart)
    requires WellFormed(c) && c.rows == []
    ensures c.columns == []
  {
    if c.columns != [] {
      var col := c.columns[0];
      assert col.ids[0] in col.ids;
      KeysMember(c.rows, col.ids[0]);
      assert false;
    }
  }

  /** Every key of the lines left by elimination or id removal was a key. */
  lemma EliminateKeys(lines: seq<Line>, excludeIds: seq<nat>)
    ensures forall x :: x in Keys(Eliminate(lines, excludeIds)) ==> x in Keys(lines) && x !in excludeIds
  {
    EliminateSpec(lines, excludeIds);
    forall x | x in Keys(Eliminate(lines, excludeIds))
      ensures x in Keys(lines) && x !in excludeIds
    {
      KeysMember(Eliminate(lines, excludeIds), x);
      KeysMember(lines, x);
    }
  }

  /** Removing the ids collected for `labels` from the rows drops the labelled
      rows and keeps only keys that were there. */
  lemma RemoveFromTableRows(c: Chart, labels: seq<nat>)
    ensures forall x :: x in Keys(RemoveFromTable(c, labels).rows) ==> x in Keys(c.rows) && x !in labels
  {
    var numbers := CollectFrom([], c.rows, labels);
    CollectFromSpec([], c.rows, labels);
    RemoveIdsSpec(c.rows, numbers);
    var rest := RemoveIds(c.rows, numbers);
    forall x | x in Keys(rest)
      ensures x in Keys(c.rows) && x !in labels
    {
      KeysMember(rest, x);
      var l :| l in rest && l.key == x;
      var l0 :| l0 in c.rows && l == Line(l0.key, FilterOut(l0.ids, numbers)) && l.ids != [];
      FilterOutSpec(l0.ids, numbers);
      KeysMember(c.rows, x);
      var y := l.ids[0];
      assert y in l0.ids && y !in numbers;
    }
  }

  /** Selecting labelled rows removes every column they meet; each such
      column is covered by the labels, every other column stays as it was. */
  lemma RemoveFromTableCovers(c: Chart, labels: seq<nat>)
    requires WellFormed(c)
    ensures forall col :: col in c.columns ==>
      Covered(col, labels) || Represented(col, RemoveFromTable(c, labels).columns)
  {
    var numbers := CollectFrom([], c.rows, labels);
    CollectFromSpec([], c.rows, labels);
    EliminateSpec(c.columns, numbers);
    forall col | col in c.columns
      ensures Covered(col, labels) || Represented(col, RemoveFromTable(c, labels).columns)
    {
      if col.key in numbers {
        var r :| r in c.rows && r.key in labels && col.key in r.ids;
        assert r.key in col.ids;
      } else {
        WithinReflexive(col.ids);
        assert col in RemoveFromTable(c, labels).columns;
      }
    }
  }

  /** Selecting a row drops at least the columns it lists. */
  lemma RemoveFromTableShrinks(c: Chart, labels: seq<nat>)
    requires WellFormed(c) && labels != [] && labels[0] in Keys(c.rows)
    ensures c.rows != []
    ensures |RemoveFromTable(c, labels).rows| <= |c.rows|
    ensures |RemoveFromTable(c, labels).columns| < |c.columns|
  {
    var numbers := CollectFrom([], c.rows, labels);
    CollectFromSpec([], c.rows, labels);
    EliminateSpec(c.columns, numbers);
    RemoveIdsMembers(c.rows, numbers);
    KeysMember(c.rows, labels[0]);
    var r :| r in c.rows && r.key == labels[0];
    var v := r.ids[0];
    assert v in Keys(c.columns);
    KeysMember(c.columns, v);
    var col :| col in c.columns && col.key == v;
    assert col.key in numbers;
  }

  /** Selecting distinct rows of a well-formed chart is progress. */
  lemma RemoveFromTableProgress(c: Chart, labels: seq<nat>)
    requires WellFormed(c) && labels != [] && Distinct(labels)
    requires forall x :: x in labels ==> x in Keys(c.rows)
    ensures Progress(c, RemoveFromTable(c, labels), labels)
  {
    DropColumnsWellFormed(c, CollectFrom([], c.rows, labels));
    RemoveFromTableRows(c, labels);
    RemoveFromTableCovers(c, labels);
    RemoveFromTableShrinks(c, labels);
  }

  /** Taking the essential prime implicants of a chart that has some is
      progress. */
  lemma EssentialProgress(c: Chart)
    requires WellFormed(c) && ExtractEPIs(c.columns) != []
    ensures Progress(c, RemoveFromTable(c, ExtractEPIs(c.columns)), ExtractEPIs(c.columns))
  {
    var epis := ExtractEPIs(c.columns);
    ExtractEPIsSpec(c.columns);
    forall x | x in epis
      ensures x in Keys(c.rows)
    {
      var col :| col in c.columns && col.ids == [x];
      assert x in col.ids;
    }
    RemoveFromTableProgress(c, epis);
  }

  /** A column of a well-formed chart has a row listing it. */
  lemma ColumnHasRow(c: Chart, col: Column) returns (i: nat)
    requires WellFormed(c) && col in c.columns
    ensures i < |c.rows| && c.rows[i].key in col.ids && col.key in c.rows[i].ids
  {
    var x := col.ids[0];
    assert x in Keys(c.rows);
    KeysMember(c.rows, x);
    var r :| r in c.rows && r.key == x;
    var i' :| 0 <= i' < |c.rows| && c.rows[i'] == r;
    i := i';
  }

  /** A row marked dominated has an unmarked row listing all its ids. */
  lemma DominatedRowSurvivor(c: Chart, i: nat) returns (j: nat)
    requires WellFormed(c) && i < |c.rows| && c.rows[i].key in CheckRowDominance(c.rows)
    ensures j < |c.rows| && c.rows[j].key !in CheckRowDominance(c.rows)
    ensures Within(c.rows[i].ids, c.rows[j].ids)
  {
    var d := CheckRowDominance(c.rows);
    DistinctKeysIff(c.rows);
    CheckRowDominanceSpec(c.rows);
    assert RowSurvivor(c.rows, d, c.rows[i].ids);
    var j' :| 0 <= j' < |c.rows| && c.rows[j'].key !in d && Within(c.rows[i].ids, c.rows[j'].ids);
    j := j';
  }

  /** An unmarked row listing a column keeps that column listed. */
  lemma UnmarkedRowKeeps(c: Chart, col: Column, d: seq<nat>, j: nat)
    requires WellFormed(c) && col in c.columns
    requires j < |c.rows| && c.rows[j].key !in d && col.key in c.rows[j].ids
    ensures FilterOut(col.ids, d) != []
  {
    assert c.rows[j] in c.rows;
    assert c.rows[j].key in col.ids;
    FilterOutSpec(col.ids, d);
  }

  /** Every column of a chart keeps an unmarked row once the dominated rows
      are marked: a marked row it lists has an unmarked row with all its
      ids. */
  lemma RowDominanceKeepsColumns(c: Chart, col: Column)
    requires WellFormed(c) && col in c.columns
    ensures FilterOut(col.ids, CheckRowDominance(c.rows)) != []
  {
    var d := CheckRowDominance(c.rows);
    var i := ColumnHasRow(c, col);
    if c.rows[i].key in d {
      var j := DominatedRowSurvivor(c, i);
      UnmarkedRowKeeps(c, col, d, j);
    } else {
      UnmarkedRowKeeps(c, col, d, i);
    }
  }

  /** Removing the dominated rows, when there are some, removes a row and
      keeps every column represented. */
  lemma RowDominanceShrinks(c: Chart)
    requires WellFormed(c) && CheckRowDominance(c.rows) != []
    ensures var next := DropRows(c, CheckRowDominance(c.rows));
      && c.rows != []
      && |next.rows| < |c.rows| && |next.columns| <= |c.columns|
  {
    var d := CheckRowDominance(c.rows);
    CheckRowDominanceSpec(c.rows);
    EliminateSpec(c.rows, d);
    RemoveIdsSpec(c.columns, d);
    assert d[0] in d;
    var i :| 0 <= i < |c.rows| && c.rows[i].key == d[0] && RowDominatedBy(c.rows, i, []);
    assert c.rows[i] in c.rows;
  }

  lemma RowDominanceRepresents(c: Chart)
    requires WellFormed(c)
    ensures forall col :: col in c.columns ==>
      Represented(col, DropRows(c, CheckRowDominance(c.rows)).columns)
  {
    var d := CheckRowDominance(c.rows);
    var next := DropRows(c, d);
    RemoveIdsSpec(c.columns, d);
    forall col | col in c.columns
      ensures Represented(col, next.columns)
    {
      RowDominanceKeepsColumns(c, col);
      var col' := Line(col.key, FilterOut(col.ids, d));
      FilterOutSpec(col.ids, d);
      assert col' in next.columns;
      assert Within(col'.ids, col.ids);
    }
  }

  /** Removing the dominated rows, when there are some, is progress. */
  lemma RowDominanceProgress(c: Chart)
    requires WellFormed(c) && CheckRowDominance(c.rows) != []
    ensures Progress(c, DropRows(c, CheckRowDominance(c.rows)), [])
  {
    var d := CheckRowDominance(c.rows);
    DropRowsWellFormed(c, d);
    EliminateKeys(c.rows, d);
    RowDominanceShrinks(c);
    RowDominanceRepresents(c);
  }

  /** Removing the dominating columns, when there are some, removes a column,
      keeps the row keys among the old ones and every column represented. */
  lemma ColDominanceShrinks(c: Chart)
    requires WellFormed(c) && CheckColDominance(c.columns) != []
    ensures var next := DropColumns(c, CheckColDominance(c.columns));
      && c.rows != []
      && |next.rows| <= |c.rows| && |next.columns| < |c.columns|
  {
    var e := CheckColDominance(c.columns);
    DistinctKeysIff(c.columns);
    CheckColDominanceSpec(c.columns);
    EliminateSpec(c.columns, e);
    RemoveIdsSpec(c.rows, e);
    assert e[0] in e;
    var j :| 0 <= j < |c.columns| && c.columns[j].key == e[0] && ColDominating(c.columns, j);
    assert c.columns[j] in c.columns;
    var v := c.columns[j].ids[0];
    assert v in Keys(c.rows);
  }

  lemma RemoveIdsKeys(lines: seq<Line>, excludeIds: seq<nat>)
    ensures forall x :: x in Keys(RemoveIds(lines, excludeIds)) ==> x in Keys(lines)
  {
    RemoveIdsMembers(lines, excludeIds);
    forall x | x in Keys(RemoveIds(lines, excludeIds))
      ensures x in Keys(lines)
    {
      KeysMember(RemoveIds(lines, excludeIds), x);
      var l :| l in RemoveIds(lines, excludeIds) && l.key == x;
      var l0 :| l0 in lines && l == Line(l0.key, FilterOut(l0.ids, excludeIds)) && l.ids != [];
      KeysMember(lines, x);
    }
  }

  /** A column marked dominating has an unmarked column listing only ids it
      lists. */
  lemma DominatingColumnSurvivor(c: Chart, b: nat) returns (a: nat)
    requires WellFormed(c) && b < |c.columns| && c.columns[b].key in CheckColDominance(c.columns)
    ensures a < |c.columns| && c.columns[a].key !in CheckColDominance(c.columns)
    ensures Within(c.columns[a].ids, c.columns[b].ids)
  {
    var e := CheckColDominance(c.columns);
    DistinctKeysIff(c.columns);
    CheckColDominanceSpec(c.columns);
    assert ColSurvivor(c.columns, e, c.columns[b].ids);
    var a' :| 0 <= a' < |c.columns| && c.columns[a'].key !in e && Within(c.columns[a'].ids, c.columns[b].ids);
    a := a';
  }

  /** Every column is represented after the dominating columns are dropped. */
  lemma ColDominanceRepresentsAt(c: Chart, b: nat)
    requires WellFormed(c) && b < |c.columns|
    ensures Represented(c.columns[b], DropColumns(c, CheckColDominance(c.columns)).columns)
  {
    var e := CheckColDominance(c.columns);
    var next := DropColumns(c, e);
    EliminateSpec(c.columns, e);
    if c.columns[b].key in e {
      var a := DominatingColumnSurvivor(c, b);
      assert c.columns[a] in next.columns;
    } else {
      WithinReflexive(c.columns[b].ids);
      assert c.columns[b] in next.columns;
    }
  }

  lemma ColDominanceRepresents(c: Chart)
    requires WellFormed(c)
    ensures forall col :: col in c.columns ==>
      Represented(col, DropColumns(c, CheckColDominance(c.columns)).columns)
  {
    forall col | col in c.columns
      ensures Represented(col, DropColumns(c, CheckColDominance(c.columns)).columns)
    {
      var b :| 0 <= b < |c.columns| && c.columns[b] == col;
      ColDominanceRepresentsAt(c, b);
    }
  }

  /** Removing the dominating columns, when there are some, is progress. */
  lemma ColDominanceProgress(c: Chart)
    requires WellFormed(c) && CheckColDominance(c.columns) != []
    ensures Progress(c, DropColumns(c, CheckColDominance(c.columns)), [])
  {
    var e := CheckColDominance(c.columns);
    DropColumnsWellFormed(c, e);
    RemoveIdsKeys(c.rows, e);
    ColDominanceShrinks(c);
    ColDominanceRepresents(c);
  }

  /** Each pass of #extractAllEPIs on a well-formed chart stops only when no
      row is left, and otherwise makes progress. */
  lemma StepProgress(c: Chart)
    requires WellFormed(c)
    ensures Step(c).None? <==> c.rows == []
    ensures Step(c).Some? ==> Progress(c, Step(c).value.next, Step(c).value.selected)
  {
    var epis := ExtractEPIs(c.columns);
    if epis != [] {
      EssentialProgress(c);
    } else if CheckRowDominance(c.rows) != [] {
      RowDominanceProgress(c);
    } else if CheckColDominance(c.columns) != [] {
      ColDominanceProgress(c);
    } else if c.rows != [] {
      FindRowWithMostColIdsSpec(c.rows);
      assert c.rows[0] in c.rows;
      var row := FindRowWithMostColIds(c.rows).value;
      var k :| 0 <= k < |c.rows| && c.rows[k] == row;
      KeysMember(c.rows, row.key);
      RemoveFromTableProgress(c, [row.key]);
    }
  }

  lemma CoveredWithin(col: Column, d: Column, selected: seq<nat>)
    requires Within(d.ids, col.ids) && Covered(d, selected)
    ensures Covered(col, selected)
  {
  }

  /** #extractAllEPIs keeps the labels it was given as a prefix and adds only
      rows of the chart. */
  lemma {:induction false} ExtractAllEPIsGrows(c: Chart, essentialPIs: seq<nat>)
    requires WellFormed(c)
    ensures var r := ExtractAllEPIs(c, essentialPIs);
      && |essentialPIs| <= |r| && r[..|essentialPIs|] == essentialPIs
      && (forall x :: x in r ==> x in essentialPIs || x in Keys(c.rows))
    decreases |c.rows| + |c.columns|
  {
    StepProgress(c);
    match Step(c)
    case None =>
    case Some(red) =>
      var acc := essentialPIs + red.selected;
      ExtractAllEPIsGrows(red.next, acc);
      assert ExtractAllEPIs(c, essentialPIs)[..|essentialPIs|] == acc[..|essentialPIs|];
  }

  /** #extractAllEPIs repeats no label when the labels it was given are
      distinct and name no row of the chart. */
  lemma {:induction false} ExtractAllEPIsDistinct(c: Chart, essentialPIs: seq<nat>)
    requires WellFormed(c)
    requires Distinct(essentialPIs) && forall x :: x in essentialPIs ==> x !in Keys(c.rows)
    ensures Distinct(ExtractAllEPIs(c, essentialPIs))
    decreases |c.rows| + |c.columns|
  {
    StepProgress(c);
    match Step(c)
    case None =>
    case Some(red) =>
      DistinctAppend(essentialPIs, red.selected);
      ExtractAllEPIsDistinct(red.next, essentialPIs + red.selected);
  }

  /** Every label the step selects is among the labels #extractAllEPIs returns. */
  lemma ExtractAllEPIsKeeps(c: Chart, essentialPIs: seq<nat>, x: nat)
    requires WellFormed(c) && x in essentialPIs
    ensures x in ExtractAllEPIs(c, essentialPIs)
  {
    var r := ExtractAllEPIs(c, essentialPIs);
    ExtractAllEPIsGrows(c, essentialPIs);
    var k :| 0 <= k < |essentialPIs| && essentialPIs[k] == x;
    assert r[..|essentialPIs|][k] == x;
  }

  /** #extractAllEPIs leaves no column of the chart uncovered. */
  lemma {:induction false} ExtractAllEPIsCovers(c: Chart, essentialPIs: seq<nat>)
    requires WellFormed(c)
    ensures forall col :: col in c.columns ==> Covered(col, ExtractAllEPIs(c, essentialPIs))
    decreases |c.rows| + |c.columns|
  {
    StepProgress(c);
    var r := ExtractAllEPIs(c, essentialPIs);
    match Step(c)
    case None =>
      NoRowsNoColumns(c);
    case Some(red) =>
      var acc := essentialPIs + red.selected;
      ExtractAllEPIsCovers(red.next, acc);
      assert r == ExtractAllEPIs(red.next, acc);
      forall col | col in c.columns
        ensures Covered(col, r)
      {
        if Covered(col, red.selected) {
          var x :| x in red.selected && x in col.ids;
          ExtractAllEPIsKeeps(red.next, acc, x);
        } else {
          var d :| d in red.next.columns && Within(d.ids, col.ids);
          CoveredWithin(col, d, r);
        }
      }
  }

  /** #extractAllEPIs on a well-formed chart keeps the labels it was given as
      a prefix, adds only rows of the chart, repeats none, and leaves no
      column uncovered. */
  lemma ExtractAllEPIsSpec(c: Chart, essentialPIs: seq<nat>)
    requires WellFormed(c)
    ensures var r := ExtractAllEPIs(c, essentialPIs);
      && |essentialPIs| <= |r| && r[..|essentialPIs|] == essentialPIs
      && (forall x :: x in r ==> x in essentialPIs || x in Keys(c.rows))
      && (Distinct(essentialPIs) && (forall x :: x in essentialPIs ==> x !in Keys(c.rows)) ==> Distinct(r))
      && (forall col :: col in c.columns ==> Covered(col, r))
  {
    ExtractAllEPIsGrows(c, essentialPIs);
    if Distinct(essentialPIs) && (forall x :: x in essentialPIs ==> x !in Keys(c.rows)) {
      ExtractAllEPIsDistinct(c, essentialPIs);
    }
    ExtractAllEPIsCovers(c, essentialPIs);
  }

  /** A prime implicant alone in a column of the chart is always selected. */
  lemma EssentialsSelected(c: Chart, col: Column, x: nat)
    requires WellFormed(c) && col in c.columns && col.ids == [x]
    ensures x in ExtractAllEPIs(c, [])
  {
    ExtractAllEPIsSpec(c, []);
    assert Covered(col, ExtractAllEPIs(c, []));
  }
}
