/*******************************************************************************
 *  #convertToBinaryRep of src/QuineMcCluskey.js: every selected prime
 *  implicant becomes a string over '0', '1' and '-', its first minterm written
 *  in binary with a '-' at the position of every merged power of two.
 *
 *  The source works on a JavaScript array of characters. Writing past its end
 *  leaves holes, which `join('')` renders as nothing; a cell holding "" stands
 *  for a hole here.
 *******************************************************************************/

module Encoding {
  import opened Utils
  import opened Terms
  import opened Primes

  /** `binary.split('')`: one cell per character. */
  function Cells(s: string): seq<string>
  {
    seq(|s|, i requires 0 <= i < |s| => [s[i]])
  }

  /** `Array.prototype.reverse` */
  function Reverse<T>(s: seq<T>): (r: seq<T>)
    ensures |r| == |s|
    ensures forall i :: 0 <= i < |s| ==> r[i] == s[|s| - 1 - i]
  {
    if s == [] then [] else Reverse(s[1..]) + [s[0]]
  }

  /** `join('')`: the cells one after the other, holes contributing nothing. */
  function Join(cells: seq<string>): string
  {
    if cells == [] then "" else cells[0] + Join(cells[1..])
  }

  /** k holes. */
  function Holes(k: nat): seq<string>
  {
    seq(k, _ => "")
  }

  /** One dash written at the logarithm of e. For a power of two the logarithm is an
      index: inside the array the cell is overwritten, past its end the array
      grows with holes up to it. Any other e has a fractional logarithm, which
      names a property that `join` never reads. */
  function SetDash(cells: seq<string>, e: nat): seq<string>
  {
    if !IsPowerOfTwo(e) then cells
    else
      var p := Log2(e);
      if p < |cells| then cells[p := "-"] else cells + Holes(p - |cells|) + ["-"]
  }

  /** Writes a dash into the cell whose position is the exponent of each
      merged distance. */
  function MarkDiff(cells: seq<string>, diff: seq<nat>): seq<string>
    decreases |diff|
  {
    if diff == [] then cells else MarkDiff(SetDash(cells, diff[0]), diff[1..])
  }

  /** The string the map callback of #convertToBinaryRep builds for a selected
      prime implicant: bits of its first index, least significant first, the
      diff positions dashed, turned back around. */
  function Encode(t: Term, count: nat): string
    requires t.indexes != []
  {
    var binary := Reverse(Cells(ToBinary(t.indexes[0], count)));
    Join(Reverse(MarkDiff(binary, t.diff)))
  }

  /** The prime implicants whose id is among the essential ones, in order. */
  function Selected(pis: seq<PrimeImplicant>, essentialPIs: seq<nat>): seq<PrimeImplicant>
  {
    if pis == [] then []
    else (if pis[0].id in essentialPIs then [pis[0]] else []) + Selected(pis[1..], essentialPIs)
  }

  /** #convertToBinaryRep: map every prime implicant to its string when it is
      selected (to `undefined` otherwise), then `filter(Boolean)`, which drops
      `undefined` and the empty string. */
  function ConvertToBinaryRep(pis: seq<PrimeImplicant>, essentialPIs: seq<nat>, count: nat): seq<string>
    requires forall p :: p in pis && p.id in essentialPIs ==> p.term.indexes != []
  {
    if pis == [] then []
    else
      var s := if pis[0].id in essentialPIs then Encode(pis[0].term, count) else "";
      (if s != "" then [s] else []) + ConvertToBinaryRep(pis[1..], essentialPIs, count)
  }

  /** Strictly increasing ids: the order #addIdToPIs hands out. */
  predicate IdsIncreasing(pis: seq<PrimeImplicant>)
  {
    forall i, j :: 0 <= i < j < |pis| ==> pis[i].id < pis[j].id
  }

  // ---------------------------------------------------------------------------

  lemma {:induction false} Pow2Injective(a: nat, b: nat)
    requires Pow2(a) == Pow2(b)
    ensures a == b
  {
    if a < b {
      Pow2Monotone(a + 1, b);
    } else if b < a {
      Pow2Monotone(b + 1, a);
    }
  }

  /** A power of two below 2^count has its logarithm below count. */
  lemma Log2Below(d: nat, count: nat)
    requires IsPowerOfTwo(d) && d < Pow2(count)
    ensures Log2(d) < count
  {
    if Log2(d) >= count {
      Pow2Monotone(count, Log2(d));
    }
  }

  /** Dashing the positions of the powers of two in `diff`, all inside the
      array, dashes exactly those cells and keeps the others. */
  lemma {:induction false} MarkDiffSpec(cells: seq<string>, diff: seq<nat>)
    requires forall d :: d in diff ==> IsPowerOfTwo(d) && Log2(d) < |cells|
    ensures var r := MarkDiff(cells, diff);
      && |r| == |cells|
      && forall p :: 0 <= p < |cells| ==> r[p] == if Pow2(p) in diff then "-" else cells[p]
    decreases |diff|
  {
    if diff != [] {
      var d0 := diff[0];
      var cells' := SetDash(cells, d0);
      assert diff == [d0] + diff[1..];
      MarkDiffSpec(cells', diff[1..]);
      forall p | 0 <= p < |cells|
        ensures cells'[p] == if Pow2(p) == d0 then "-" else cells[p]
      {
        if Pow2(p) == d0 {
          Pow2Injective(p, Log2(d0));
        }
      }
    }
  }

  /** Joining one-character cells gives one character per cell. */
  lemma {:induction false} JoinSingles(cells: seq<string>)
    requires forall i :: 0 <= i < |cells| ==> |cells[i]| == 1
    ensures |Join(cells)| == |cells|
    ensures forall i :: 0 <= i < |cells| ==> Join(cells)[i] == cells[i][0]
  {
    if cells != [] {
      JoinSingles(cells[1..]);
    }
  }

  /** The reversed cells of toBinary(n, count), for n below 2^count: cell p
      is bit p of n. */
  lemma BinaryCells(n: nat, count: nat)
    requires 0 < count && n < Pow2(count)
    ensures var binary := Reverse(Cells(ToBinary(n, count)));
      && |binary| == count
      && forall p :: 0 <= p < count ==> binary[p] == [Digit(Bit(n, p))]
  {
    ToBinaryLength(n, count);
    var bin := ToBinary(n, count);
    forall p | 0 <= p < count
      ensures Reverse(Cells(bin))[p] == [Digit(Bit(n, p))]
    {
      ToBinaryBits(n, count, p);
    }
  }

  /** Turning one-character cells back around and joining them puts cell p
      at p places from the right. */
  lemma JoinReversed(cells: seq<string>)
    requires forall i :: 0 <= i < |cells| ==> |cells[i]| == 1
    ensures |Join(Reverse(cells))| == |cells|
    ensures forall p :: 0 <= p < |cells| ==> Join(Reverse(cells))[|cells| - 1 - p] == cells[p][0]
  {
    var back := Reverse(cells);
    JoinSingles(back);
    forall p | 0 <= p < |cells|
      ensures Join(back)[|cells| - 1 - p] == cells[p][0]
    {
      assert back[|cells| - 1 - p] == cells[p];
    }
  }

  /** The cells of #convertToBinaryRep after dashing, least significant
      first. */
  function Marked(t: Term, count: nat): seq<string>
    requires t.indexes != []
  {
    MarkDiff(Reverse(Cells(ToBinary(t.indexes[0], count))), t.diff)
  }

  /** Cell p after dashing is '-' when 2^p was merged and bit p of the first
      index otherwise. */
  lemma MarkedSpec(t: Term, count: nat)
    requires t.indexes != [] && 0 < count && t.indexes[0] < Pow2(count)
    requires forall d :: d in t.diff ==> IsPowerOfTwo(d) && d < Pow2(count)
    ensures var m := Marked(t, count);
      && |m| == count
      && forall p :: 0 <= p < count ==> m[p] == if Pow2(p) in t.diff then "-" else [Digit(Bit(t.indexes[0], p))]
  {
    var binary := Reverse(Cells(ToBinary(t.indexes[0], count)));
    BinaryCells(t.indexes[0], count);
    forall d | d in t.diff
      ensures Log2(d) < |binary|
    {
      Log2Below(d, count);
    }
    MarkDiffSpec(binary, t.diff);
  }

  /** For a first index below 2^count and merged distances that are powers of
      two below 2^count, the string has exactly count characters, and the one
      p places from the right is '-' when 2^p was merged and bit p of the first
      index otherwise. */
  lemma EncodeSpec(t: Term, count: nat)
    requires t.indexes != [] && 0 < count && t.indexes[0] < Pow2(count)
    requires forall d :: d in t.diff ==> IsPowerOfTwo(d) && d < Pow2(count)
    ensures var r := Encode(t, count);
      && |r| == count
      && forall p :: 0 <= p < count ==>
           r[count - 1 - p] == if Pow2(p) in t.diff then '-' else Digit(Bit(t.indexes[0], p))
  {
    var marked := Marked(t, count);
    MarkedSpec(t, count);
    JoinReversed(marked);
    assert Encode(t, count) == Join(Reverse(marked));
  }

  /** Dashing only ever adds cells. */
  lemma {:induction false} MarkDiffGrows(cells: seq<string>, diff: seq<nat>)
    ensures |MarkDiff(cells, diff)| >= |cells|
    ensures forall i :: 0 <= i < |cells| && cells[i] != "" ==> MarkDiff(cells, diff)[i] != ""
    decreases |diff|
  {
    if diff != [] {
      MarkDiffGrows(SetDash(cells, diff[0]), diff[1..]);
    }
  }

  lemma {:induction false} JoinNonEmpty(cells: seq<string>, i: nat)
    requires i < |cells| && cells[i] != ""
    ensures Join(cells) != ""
  {
    if i > 0 {
      JoinNonEmpty(cells[1..], i - 1);
    }
  }

  /** Every selected prime implicant yields a non-empty string, so
      `filter(Boolean)` drops only the unselected ones. */
  lemma EncodeNonEmpty(t: Term, count: nat)
    requires t.indexes != []
    ensures Encode(t, count) != ""
  {
    var bin := ToBinary(t.indexes[0], count);
    ToBinaryShape(t.indexes[0], count);
    var binary := Reverse(Cells(bin));
    assert binary[0] == [bin[|bin| - 1]];
    MarkDiffGrows(binary, t.diff);
    var marked := MarkDiff(binary, t.diff);
    var back := Reverse(marked);
    assert back[|marked| - 1] == marked[0];
    JoinNonEmpty(back, |marked| - 1);
  }

  /** The selection keeps exactly the prime implicants with an essential id. */
  lemma {:induction false} SelectedMember(pis: seq<PrimeImplicant>, essentialPIs: seq<nat>)
    ensures forall p :: p in Selected(pis, essentialPIs) <==> p in pis && p.id in essentialPIs
  {
    if pis != [] {
      SelectedMember(pis[1..], essentialPIs);
      assert pis == [pis[0]] + pis[1..];
    }
  }

  /** The selection keeps the order of the prime implicants. */
  lemma {:induction false} SelectedOrder(pis: seq<PrimeImplicant>, essentialPIs: seq<nat>)
    requires IdsIncreasing(pis)
    ensures IdsIncreasing(Selected(pis, essentialPIs))
  {
    if pis != [] {
      var tail := pis[1..];
      var rest := Selected(tail, essentialPIs);
      SelectedOrder(tail, essentialPIs);
      if pis[0].id in essentialPIs {
        SelectedMember(tail, essentialPIs);
        var s := [pis[0]] + rest;
        assert Selected(pis, essentialPIs) == s;
        forall i, j | 0 <= i < j < |s|
          ensures s[i].id < s[j].id
        {
          if i == 0 {
            assert s[j] in tail;
            var k :| 0 <= k < |tail| && tail[k] == s[j];
            assert pis[k + 1] == s[j];
          } else {
            assert s[i] == rest[i - 1] && s[j] == rest[j - 1];
          }
        }
      } else {
        assert Selected(pis, essentialPIs) == rest;
      }
    }
  }

  /** The selection keeps exactly the prime implicants with an essential id,
      in their order. */
  lemma SelectedSpec(pis: seq<PrimeImplicant>, essentialPIs: seq<nat>)
    ensures forall p :: p in Selected(pis, essentialPIs) <==> p in pis && p.id in essentialPIs
    ensures IdsIncreasing(pis) ==> IdsIncreasing(Selected(pis, essentialPIs))
  {
    SelectedMember(pis, essentialPIs);
    if IdsIncreasing(pis) {
      SelectedOrder(pis, essentialPIs);
    }
  }

  /** #convertToBinaryRep yields one string per selected prime implicant, in
      prime-implicant order. */
  lemma {:induction false} ConvertToBinaryRepSpec(pis: seq<PrimeImplicant>, essentialPIs: seq<nat>, count: nat)
    requires forall p :: p in pis && p.id in essentialPIs ==> p.term.indexes != []
    ensures var r := ConvertToBinaryRep(pis, essentialPIs, count);
      var sel := Selected(pis, essentialPIs);
      && |r| == |sel|
      && forall k :: 0 <= k < |r| ==> sel[k].term.indexes != [] && r[k] == Encode(sel[k].term, count)
  {
    if pis != [] {
      ConvertToBinaryRepSpec(pis[1..], essentialPIs, count);
      if pis[0].id in essentialPIs {
        assert pis[0] in pis;
        EncodeNonEmpty(pis[0].term, count);
      }
    }
  }
}
