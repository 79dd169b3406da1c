/*******************************************************************************
 *  Integer and array helpers of the Quine-McCluskey engine (src/utils.js; the
 *  older utils.js at the repository root holds textually identical copies of
 *  countOnesInBinary, isPowerOfTwo, sortingFn and checkElementExistsInArray).
 *******************************************************************************/

/** Option type used where the source returns `null`. */
module Wrappers {

  datatype Option<+T> = None | Some(value: T)
}

module Utils {

  /** 2 to the power k. */
  function Pow2(k: nat): (r: nat)
    ensures r >= 1
  {
    if k == 0 then 1 else 2 * Pow2(k - 1)
  }

  /** Bit p (0 = least significant) of n. */
  function Bit(n: nat, p: nat): nat
  {
    (n / Pow2(p)) % 2
  }

  /** The character used for a binary digit. */
  function Digit(b: nat): char
  {
    if b == 1 then '1' else '0'
  }

  /** Number of set bits of n, defined arithmetically. */
  function PopCount(n: nat): nat
  {
    if n == 0 then 0 else n % 2 + PopCount(n / 2)
  }

  /** `n.toString(2)`: binary digits, most significant first, "0" for zero. */
  function BinaryString(n: nat): (s: string)
    ensures |s| >= 1
    ensures forall i :: 0 <= i < |s| ==> s[i] == '0' || s[i] == '1'
    ensures n > 0 ==> s[0] == '1'
  {
    if n < 2 then [Digit(n)] else BinaryString(n / 2) + [Digit(n % 2)]
  }

  /** Reads a string of binary digits, most significant first; any character
      other than '1' counts as a zero digit. */
  function Value(s: string): nat
  {
    if s == [] then 0 else 2 * Value(s[..|s| - 1]) + (if s[|s| - 1] == '1' then 1 else 0)
  }

  /** Number of occurrences of c in s. */
  function CountChar(s: string, c: char): nat
  {
    if s == [] then 0 else CountChar(s[..|s| - 1], c) + (if s[|s| - 1] == c then 1 else 0)
  }

  /** countOnesInBinary: the number of '1' characters in the binary rendering
      of n, counted as the pieces between ones minus one. */
  function CountOnesInBinary(n: nat): nat
  {
    CountChar(BinaryString(n), '1')
  }

  /** isPowerOfTwo: whether the base-2 logarithm of n is a whole number, read
      over the integers. */
  function IsPowerOfTwo(n: int): bool
    decreases if n > 0 then n else 0
  {
    n > 0 && (n == 1 || (n % 2 == 0 && IsPowerOfTwo(n / 2)))
  }

  /** `Math.log2(n)` for a power of two n. */
  function Log2(n: int): (k: nat)
    requires IsPowerOfTwo(n)
    ensures Pow2(k) == n
    decreases n
  {
    if n == 1 then 0 else 1 + Log2(n / 2)
  }

  /** sortingFn: the comparator handed to `Array.prototype.sort`. */
  function SortingFn(a: int, b: int): int
  {
    if a < b then -1 else 1
  }

  predicate Sorted(s: seq<nat>)
  {
    forall i, j :: 0 <= i < j < |s| ==> s[i] <= s[j]
  }

  /** One step of `sort(sortingFn)`: x placed before the first element it
      compares below. */
  function InsertSorted(x: nat, s: seq<nat>): seq<nat>
  {
    if s == [] then [x]
    else if SortingFn(x, s[0]) < 0 then [x] + s
    else [s[0]] + InsertSorted(x, s[1..])
  }

  /** `s.sort(sortingFn)` on an array of non-negative integers. */
  function Sort(s: seq<nat>): seq<nat>
  {
    if s == [] then [] else InsertSorted(s[0], Sort(s[1..]))
  }

  /** isDominated: every element of a also occurs in b. */
  function IsDominated(a: seq<nat>, b: seq<nat>): bool
  {
    a == [] || (a[0] in b && IsDominated(a[1..], b))
  }

  /** checkElementExistsInArray: the JSON rendering of `element` occurs in the
      JSON rendering of the nested array. For the term records it is applied to
      this is structural membership in one of the inner arrays. */
  function CheckElementExistsInArray<T(==)>(element: T, arr: seq<seq<T>>): bool
  {
    arr != [] && (element in arr[0] || CheckElementExistsInArray(element, arr[1..]))
  }

  function Zeros(k: nat): (z: string)
    ensures |z| == k && forall i :: 0 <= i < k ==> z[i] == '0'
  {
    if k == 0 then [] else "0" + Zeros(k - 1)
  }

  /** The padding loop of toBinary: prepend zeros until the string is bitLength
      characters long. */
  function PadLeft(s: string, bitLength: int): string
    decreases bitLength - |s|
  {
    if |s| < bitLength then PadLeft("0" + s, bitLength) else s
  }

  /** toBinary: the binary rendering of n left-padded with '0' to bitLength. */
  function ToBinary(n: nat, bitLength: int): string
  {
    PadLeft(BinaryString(n), bitLength)
  }

  function Max(a: int, b: int): int
  {
    if a < b then b else a
  }

  // ---------------------------------------------------------------------------
  // Arithmetic facts
  // ---------------------------------------------------------------------------

  lemma {:induction false} MulMonotone(m: nat, a: nat, b: nat)
    requires a <= b
    ensures m * a <= m * b
    decreases b - a
  {
    if a < b {
      MulMonotone(m, a, b - 1);
      assert m * b == m * (b - 1) + m;
    }
  }

  lemma MulStep(m: nat, a: nat, b: nat)
    ensures a < b ==> m * a + m <= m * b
  {
    if a < b {
      MulMonotone(m, a + 1, b);
      assert m * (a + 1) == m * a + m;
    }
  }

  lemma DivUnique(n: nat, m: nat, q: nat, rem: nat)
    requires m > 0 && n == m * q + rem && rem < m
    ensures n / m == q && n % m == rem
  {
    var q', r' := n / m, n % m;
    assert n == m * q' + r';
    MulStep(m, q', q);
    MulStep(m, q, q');
  }

  lemma SmallDiv(n: nat, m: nat)
    requires n < m
    ensures n / m == 0
  {
    DivUnique(n, m, 0, n);
  }

  lemma {:induction false} Pow2Add(a: nat, b: nat)
    ensures Pow2(a + b) == Pow2(a) * Pow2(b)
  {
    if a > 0 {
      Pow2Add(a - 1, b);
    }
  }

  lemma {:induction false} Pow2Monotone(a: nat, b: nat)
    requires a <= b
    ensures Pow2(a) <= Pow2(b)
  {
    if a < b {
      Pow2Monotone(a, b - 1);
    }
  }

  /** Halving n shifts every bit one place down. */
  lemma HalfShiftsBits(n: nat, p: nat)
    ensures (n / 2) / Pow2(p) == n / Pow2(p + 1)
  {
    var k := Pow2(p);
    var q := n / 2;
    var a := q / k;
    var b := q % k;
    assert q == k * a + b;
    assert n == 2 * q + n % 2;
    assert n == (2 * k) * a + (2 * b + n % 2);
    DivUnique(n, 2 * k, a, 2 * b + n % 2);
  }

  lemma BitOfHalf(n: nat, p: nat)
    ensures Bit(n / 2, p) == Bit(n, p + 1)
  {
    HalfShiftsBits(n, p);
  }

  // ---------------------------------------------------------------------------
  // Properties of the helpers
  // ---------------------------------------------------------------------------

  /** countOnesInBinary agrees with the arithmetic population count. */
  lemma {:induction false} CountOnesIsPopCount(n: nat)
    ensures CountOnesInBinary(n) == PopCount(n)
  {
    if n >= 2 {
      var s := BinaryString(n);
      assert s[..|s| - 1] == BinaryString(n / 2);
      CountOnesIsPopCount(n / 2);
    }
  }

  /** Reading the binary rendering back gives the number: the rendering is exact. */
  lemma {:induction false} BinaryStringRoundTrip(n: nat)
    ensures Value(BinaryString(n)) == n
  {
    if n >= 2 {
      var s := BinaryString(n);
      assert s[..|s| - 1] == BinaryString(n / 2);
      BinaryStringRoundTrip(n / 2);
    }
  }

  /** The rendering has no digit beyond the highest set bit: 2^(len-1) <= n < 2^len for n > 0. */
  lemma {:induction false} BinaryStringBounds(n: nat)
    ensures var s := BinaryString(n);
      n < Pow2(|s|) && (n > 0 ==> Pow2(|s| - 1) <= n)
  {
    if n >= 2 {
      BinaryStringBounds(n / 2);
    }
  }

  /** The digit p places from the right is bit p, and no bit beyond the rendering is set. */
  lemma {:induction false} BinaryStringBits(n: nat, p: nat)
    ensures var s := BinaryString(n);
      && (p < |s| ==> s[|s| - 1 - p] == Digit(Bit(n, p)))
      && (p >= |s| ==> Bit(n, p) == 0)
  {
    var s := BinaryString(n);
    if p >= |s| {
      BinaryStringBounds(n);
      Pow2Monotone(|s|, p);
      SmallDiv(n, Pow2(p));
    } else if n >= 2 {
      var h := BinaryString(n / 2);
      assert s == h + [Digit(n % 2)];
      if p > 0 {
        BinaryStringBits(n / 2, p - 1);
        BitOfHalf(n, p - 1);
        assert s[|s| - 1 - p] == h[|h| - 1 - (p - 1)];
      }
    }
  }

  /** isPowerOfTwo holds exactly for the numbers 2^k: never for 0 or negatives. */
  lemma {:induction false} IsPowerOfTwoIff(n: int)
    ensures IsPowerOfTwo(n) <==> exists k: nat :: Pow2(k) == n
    decreases if n > 0 then n else 0
  {
    if IsPowerOfTwo(n) {
      assert Pow2(Log2(n)) == n;
    }
    if exists k: nat :: Pow2(k) == n {
      var k: nat :| Pow2(k) == n;
      PowerIsPowerOfTwo(k);
    }
  }

  lemma {:induction false} PowerIsPowerOfTwo(k: nat)
    ensures IsPowerOfTwo(Pow2(k))
  {
    if k > 0 {
      PowerIsPowerOfTwo(k - 1);
      assert Pow2(k) / 2 == Pow2(k - 1);
    }
  }

  /** sortingFn never reports equality: it is -1 exactly when a < b, otherwise 1,
      and it is antisymmetric on distinct arguments. */
  lemma SortingFnIsStrictComparator(a: int, b: int)
    ensures SortingFn(a, b) != 0
    ensures SortingFn(a, b) == -1 <==> a < b
    ensures SortingFn(a, b) == 1 <==> a >= b
    ensures a != b ==> SortingFn(a, b) == -SortingFn(b, a)
  {
  }

  lemma SortedCons(a: nat, t: seq<nat>)
    requires Sorted(t) && forall j :: 0 <= j < |t| ==> a <= t[j]
    ensures Sorted([a] + t)
  {
  }

  /** Inserting adds x and keeps every element. */
  lemma {:induction false} InsertSortedMultiset(x: nat, s: seq<nat>)
    ensures multiset(InsertSorted(x, s)) == multiset(s) + multiset{x}
  {
    if s != [] && x >= s[0] {
      InsertSortedMultiset(x, s[1..]);
      assert s == [s[0]] + s[1..];
    }
  }

  lemma InsertSortedMembers(x: nat, s: seq<nat>)
    ensures forall y :: y in InsertSorted(x, s) <==> y == x || y in s
  {
    InsertSortedMultiset(x, s);
    forall y
      ensures y in InsertSorted(x, s) <==> y == x || y in s
    {
      assert y in InsertSorted(x, s) <==> y in multiset(InsertSorted(x, s));
      assert y in s <==> y in multiset(s);
    }
  }

  lemma {:induction false} InsertSortedSorted(x: nat, s: seq<nat>)
    requires Sorted(s)
    ensures Sorted(InsertSorted(x, s))
  {
    if s == [] {
    } else if x < s[0] {
      SortedCons(x, s);
    } else {
      var t := InsertSorted(x, s[1..]);
      InsertSortedSorted(x, s[1..]);
      InsertSortedMembers(x, s[1..]);
      forall j | 0 <= j < |t|
        ensures s[0] <= t[j]
      {
        assert t[j] in t;
      }
      SortedCons(s[0], t);
    }
  }

  lemma InsertSortedSpec(x: nat, s: seq<nat>)
    requires Sorted(s)
    ensures Sorted(InsertSorted(x, s))
    ensures multiset(InsertSorted(x, s)) == multiset(s) + multiset{x}
  {
    InsertSortedSorted(x, s);
    InsertSortedMultiset(x, s);
  }

  lemma {:induction false} SortMultiset(s: seq<nat>)
    ensures multiset(Sort(s)) == multiset(s)
  {
    if s != [] {
      SortMultiset(s[1..]);
      InsertSortedMultiset(s[0], Sort(s[1..]));
      assert s == [s[0]] + s[1..];
    }
  }

  lemma {:induction false} SortSorted(s: seq<nat>)
    ensures Sorted(Sort(s))
  {
    if s != [] {
      SortSorted(s[1..]);
      InsertSortedSorted(s[0], Sort(s[1..]));
    }
  }

  /** `sort(sortingFn)` returns the ascending permutation of its input. */
  lemma SortSpec(s: seq<nat>)
    ensures Sorted(Sort(s))
    ensures multiset(Sort(s)) == multiset(s)
    ensures |Sort(s)| == |s|
  {
    SortSorted(s);
    SortMultiset(s);
    assert |multiset(Sort(s))| == |multiset(s)|;
  }

  lemma SortedHeadIsLeast(a: seq<nat>, x: nat)
    requires Sorted(a) && x in a
    ensures a[0] <= x
  {
  }

  lemma MultisetTail(a: seq<nat>)
    requires a != []
    ensures multiset(a[1..]) == multiset(a) - multiset{a[0]}
  {
    assert a == [a[0]] + a[1..];
  }

  lemma SortedTail(a: seq<nat>)
    requires a != [] && Sorted(a)
    ensures Sorted(a[1..])
  {
  }

  /** Two ascending arrays with the same elements start alike. */
  lemma SortedSameHead(a: seq<nat>, b: seq<nat>)
    requires Sorted(a) && Sorted(b) && multiset(a) == multiset(b) && a != []
    ensures b != [] && a[0] == b[0]
  {
    assert a[0] in multiset(b);
    assert b[0] in multiset(a);
    SortedHeadIsLeast(a, b[0]);
    SortedHeadIsLeast(b, a[0]);
  }

  /** The ascending permutation of a multiset is unique, so any correct sort
      gives the same array as this insertion sort. */
  lemma {:induction false} SortedPermutationUnique(a: seq<nat>, b: seq<nat>)
    requires Sorted(a) && Sorted(b) && multiset(a) == multiset(b)
    ensures a == b
    decreases |a|
  {
    if a == [] {
      assert |multiset(b)| == 0;
    } else {
      SortedSameHead(a, b);
      MultisetTail(a);
      MultisetTail(b);
      SortedTail(a);
      SortedTail(b);
      SortedPermutationUnique(a[1..], b[1..]);
      assert a == [a[0]] + a[1..];
      assert b == [b[0]] + b[1..];
    }
  }

  /** isDominated(A, B) holds exactly when every element of A occurs in B. */
  lemma {:induction false} IsDominatedIff(a: seq<nat>, b: seq<nat>)
    ensures IsDominated(a, b) <==> forall e :: e in a ==> e in b
  {
    if a != [] {
      IsDominatedIff(a[1..], b);
      assert a == [a[0]] + a[1..];
    }
  }

  lemma IsDominatedReflexive(a: seq<nat>)
    ensures IsDominated(a, a)
    ensures IsDominated([], a)
  {
    IsDominatedIff(a, a);
    IsDominatedIff([], a);
  }

  lemma IsDominatedTransitive(a: seq<nat>, b: seq<nat>, c: seq<nat>)
    requires IsDominated(a, b) && IsDominated(b, c)
    ensures IsDominated(a, c)
  {
    IsDominatedIff(a, b);
    IsDominatedIff(b, c);
    IsDominatedIff(a, c);
  }

  /** checkElementExistsInArray is membership in some inner array. */
  lemma {:induction false} CheckElementExistsInArrayIff<T>(element: T, arr: seq<seq<T>>)
    ensures CheckElementExistsInArray(element, arr)
        <==> exists i :: 0 <= i < |arr| && element in arr[i]
  {
    if arr != [] {
      CheckElementExistsInArrayIff(element, arr[1..]);
      if exists i :: 0 <= i < |arr| && element in arr[i] {
        var i :| 0 <= i < |arr| && element in arr[i];
        if i > 0 {
          assert element in arr[1..][i - 1];
        }
      }
      if exists i :: 0 <= i < |arr[1..]| && element in arr[1..][i] {
        var i :| 0 <= i < |arr[1..]| && element in arr[1..][i];
        assert element in arr[i + 1];
      }
    }
  }

  lemma {:induction false} PadLeftShape(s: string, bitLength: int)
    ensures var r := PadLeft(s, bitLength);
      |r| == Max(bitLength, |s|) && r == Zeros(|r| - |s|) + s
    decreases bitLength - |s|
  {
    if |s| < bitLength {
      PadLeftShape("0" + s, bitLength);
      var r := PadLeft("0" + s, bitLength);
      assert Zeros(|r| - |s|) == Zeros(|r| - |s| - 1) + "0";
    }
  }

  lemma {:induction false} LeadingZerosValue(k: nat, s: string)
    ensures Value(Zeros(k) + s) == Value(s)
    decreases |s|
  {
    if s == [] {
      ZerosValue(k);
      assert Zeros(k) + s == Zeros(k);
    } else {
      var t := Zeros(k) + s;
      assert t[..|t| - 1] == Zeros(k) + s[..|s| - 1];
      LeadingZerosValue(k, s[..|s| - 1]);
    }
  }

  lemma {:induction false} ZerosValue(k: nat)
    ensures Value(Zeros(k)) == 0
  {
    if k > 0 {
      var z := Zeros(k);
      assert z[..k - 1] == Zeros(k - 1);
      ZerosValue(k - 1);
    }
  }

  /** toBinary pads with leading '0's only, never truncates, and still reads back as n. */
  lemma ToBinaryShape(n: nat, bitLength: int)
    ensures var r := ToBinary(n, bitLength);
      && |r| == Max(bitLength, |BinaryString(n)|)
      && r == Zeros(|r| - |BinaryString(n)|) + BinaryString(n)
      && Value(r) == n
  {
    var s := BinaryString(n);
    PadLeftShape(s, bitLength);
    LeadingZerosValue(Max(bitLength, |s|) - |s|, s);
    BinaryStringRoundTrip(n);
  }

  /** Padding leaves the digits of s in place, counted from the right, and
      puts '0' beyond them. */
  lemma PaddedDigit(s: string, bitLength: int, q: nat, d: char)
    requires q < |PadLeft(s, bitLength)|
    requires q < |s| ==> s[|s| - 1 - q] == d
    requires q >= |s| ==> d == '0'
    ensures var r := PadLeft(s, bitLength); r[|r| - 1 - q] == d
  {
    PadLeftShape(s, bitLength);
  }

  /** The character p places from the right of toBinary(n, L) is bit p of n. */
  lemma ToBinaryBits(n: nat, bitLength: int, p: nat)
    requires p < |ToBinary(n, bitLength)|
    ensures var r := ToBinary(n, bitLength); r[|r| - 1 - p] == Digit(Bit(n, p))
  {
    BinaryStringBits(n, p);
    PaddedDigit(BinaryString(n), bitLength, p, Digit(Bit(n, p)));
  }

  /** A number below 2^L renders in exactly L digits when padded to L >= 1. */
  lemma ToBinaryLength(n: nat, bitLength: nat)
    requires 0 < bitLength && n < Pow2(bitLength)
    ensures |ToBinary(n, bitLength)| == bitLength
  {
    var s := BinaryString(n);
    PadLeftShape(s, bitLength);
    BinaryStringBounds(n);
    if |s| > bitLength {
      Pow2Monotone(bitLength, |s| - 1);
      assert false;
    }
  }
}
