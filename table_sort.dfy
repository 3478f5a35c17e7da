/**
 * The row ordering used by the log book's table dialogs: a column cell is
 * compared as a "numeric-looking" string (both cells left-padded with '0'
 * to the longer length, then compared lexicographically), empty cells sort
 * last in both directions, and the table body is sorted by that ordering.
 */
module TableSort {

  /** One table row: the rendered value of every column. */
  type Row = seq<string>

  function Max(a: int, b: int): (m: int) { if a < b then b else a }

  /** `n` copies of `c`. */
  function Repeat(c: char, n: nat): (r: string)
    ensures |r| == n && forall k :: 0 <= k < n ==> r[k] == c
  {
    seq(n, _ => c)
  }

  /**
   * StringUtils.leftPad: pads `s` on the left with `pad` up to `size`
   * characters; a string already that long (or a size below it) is kept.
   */
  function LeftPad(s: string, size: int, pad: char): (r: string)
    ensures |r| == Max(|s|, size)
  {
    if size <= |s| then s else Repeat(pad, size - |s|) + s
  }

  /** The padded string ends with the original and is pad characters before it. */
  lemma LeftPadShape(s: string, size: int, pad: char)
    ensures var r := LeftPad(s, size, pad);
      && r[|r| - |s|..] == s
      && forall k :: 0 <= k < |r| - |s| ==> r[k] == pad
  {
  }

  /**
   * The sign of Java's `a.compareTo(b)`: the first differing character
   * decides, and when one string is a prefix of the other the shorter one
   * is smaller.
   */
  function LexCompare(a: string, b: string): (r: int)
    ensures -1 <= r <= 1
    ensures r == 0 <==> a == b
  {
    if a == [] && b == [] then 0
    else if a == [] then -1
    else if b == [] then 1
    else if a[0] < b[0] then -1
    else if b[0] < a[0] then 1
    else
      var r := LexCompare(a[1..], b[1..]);
      assert r == 0 ==> a == [a[0]] + a[1..] == [b[0]] + b[1..] == b;
      r
  }

  /** Swapping the operands of compareTo negates its sign. */
  lemma {:induction false} LexCompareAntisymmetric(a: string, b: string)
    ensures LexCompare(a, b) == -LexCompare(b, a)
  {
    if a != [] && b != [] && a[0] == b[0] {
      LexCompareAntisymmetric(a[1..], b[1..]);
    }
  }

  /**
   * The comparator applied to the two cells of the sort column
   * (TableComparator.compare). `order` true is ascending.
   */
  function CompareCells(c1: string, c2: string, order: bool): (r: int)
    ensures -1 <= r <= 1
    ensures c1 == "" && c2 == "" ==> r == 0
    ensures c1 == "" && c2 != "" ==> r == 1
    ensures c1 != "" && c2 == "" ==> r == -1
  {
    var length := Max(|c1|, |c2|);
    var s1 := LeftPad(c1, length, '0');
    var s2 := LeftPad(c2, length, '0');
    if c1 == "" && c2 == "" then 0
    else if c1 == "" then 1
    else if c2 == "" then -1
    else if !order then LexCompare(s2, s1)
    else LexCompare(s1, s2)
  }

  /** Every row has a cell at `index`. */
  predicate WellFormed(rows: seq<Row>, index: int) {
    forall k :: 0 <= k < |rows| ==> 0 <= index < |rows[k]|
  }

  /**
   * TableComparator.compare on two rows, configured with `index` and
   * `order`: only the cells of that column decide, equal cells tie, and an
   * empty cell sorts after every non-empty one in both directions.
   */
  function Compare(o1: Row, o2: Row, index: int, order: bool): (r: int)
    requires 0 <= index < |o1| && index < |o2|
    ensures -1 <= r <= 1
    ensures o1[index] == o2[index] ==> r == 0
    ensures o1[index] == "" && o2[index] != "" ==> r == 1
    ensures o1[index] != "" && o2[index] == "" ==> r == -1
  {
    CompareCells(o1[index], o2[index], order)
  }

  /** Every pair of neighbouring rows is in non-decreasing comparator order. */
  predicate SortedBy(rows: seq<Row>, index: int, order: bool) {
    && WellFormed(rows, index)
    && forall k :: 0 < k < |rows| ==> Compare(rows[k - 1], rows[k], index, order) <= 0
  }

  // ---------------------------------------------------------------------
  // Sign properties of the comparator

  /** compare(a, b) and compare(b, a) have opposite signs (empty cells included). */
  lemma CompareCellsAntisymmetric(c1: string, c2: string, order: bool)
    ensures CompareCells(c1, c2, order) == -CompareCells(c2, c1, order)
  {
    var length := Max(|c1|, |c2|);
    assert Max(|c2|, |c1|) == length;
    LexCompareAntisymmetric(LeftPad(c1, length, '0'), LeftPad(c2, length, '0'));
  }

  /** For two non-empty cells, flipping the direction negates the result. */
  lemma CompareCellsFlipOrder(c1: string, c2: string, order: bool)
    requires c1 != "" && c2 != ""
    ensures CompareCells(c1, c2, !order) == -CompareCells(c1, c2, order)
  {
    var length := Max(|c1|, |c2|);
    LexCompareAntisymmetric(LeftPad(c1, length, '0'), LeftPad(c2, length, '0'));
  }

  /** compareTo's order is transitive. */
  lemma {:induction false} LexCompareTransitive(a: string, b: string, c: string)
    requires LexCompare(a, b) <= 0 && LexCompare(b, c) <= 0
    ensures LexCompare(a, c) <= 0
  {
    if a != [] && b != [] && c != [] && a[0] == b[0] == c[0] {
      LexCompareTransitive(a[1..], b[1..], c[1..]);
    }
  }

  /** A common prefix does not change compareTo. */
  lemma {:induction false} LexCommonPrefix(z: string, s: string, t: string)
    ensures LexCompare(z + s, z + t) == LexCompare(s, t)
  {
    if z != [] {
      assert (z + s)[0] == z[0] == (z + t)[0];
      assert (z + s)[1..] == z[1..] + s && (z + t)[1..] == z[1..] + t;
      LexCommonPrefix(z[1..], s, t);
    } else {
      assert z + s == s && z + t == t;
    }
  }

  /** Padding two cells to any length they both fit in compares them as padding to the longer one does. */
  lemma PadLonger(c1: string, c2: string, n: int)
    requires |c1| <= n && |c2| <= n
    ensures var m := Max(|c1|, |c2|);
      LexCompare(LeftPad(c1, n, '0'), LeftPad(c2, n, '0')) == LexCompare(LeftPad(c1, m, '0'), LeftPad(c2, m, '0'))
  {
    var m := Max(|c1|, |c2|);
    var z := Repeat('0', n - m);
    LeftPadPrefixes(c1, n, '0');
    LeftPadPrefixes(c2, n, '0');
    LeftPadPrefixes(c1, m, '0');
    LeftPadPrefixes(c2, m, '0');
    assert Repeat('0', n - |c1|) == z + Repeat('0', m - |c1|);
    assert Repeat('0', n - |c2|) == z + Repeat('0', m - |c2|);
    assert LeftPad(c1, n, '0') == z + LeftPad(c1, m, '0');
    assert LeftPad(c2, n, '0') == z + LeftPad(c2, m, '0');
    LexCommonPrefix(z, LeftPad(c1, m, '0'), LeftPad(c2, m, '0'));
  }

  /** The comparator's order on cells is transitive, in both directions and with empty cells. */
  lemma CompareCellsTransitive(a: string, b: string, c: string, order: bool)
    requires CompareCells(a, b, order) <= 0 && CompareCells(b, c, order) <= 0
    ensures CompareCells(a, c, order) <= 0
  {
    if a != "" && b != "" && c != "" {
      var n := Max(Max(|a|, |b|), |c|);
      var pa, pb, pc := LeftPad(a, n, '0'), LeftPad(b, n, '0'), LeftPad(c, n, '0');
      if order {
        PadLonger(a, b, n);
        PadLonger(b, c, n);
        PadLonger(a, c, n);
        LexCompareTransitive(pa, pb, pc);
      } else {
        assert Max(|b|, |a|) == Max(|a|, |b|) && Max(|c|, |b|) == Max(|b|, |c|) && Max(|c|, |a|) == Max(|a|, |c|);
        PadLonger(b, a, n);
        PadLonger(c, b, n);
        PadLonger(c, a, n);
        LexCompareTransitive(pc, pb, pa);
      }
    }
  }

  /** The strict order is transitive too: a < b and b < c give a < c. */
  lemma CompareCellsStrictlyTransitive(a: string, b: string, c: string, order: bool)
    requires CompareCells(b, a, order) > 0 && CompareCells(c, b, order) > 0
    ensures CompareCells(c, a, order) > 0
  {
    CompareCellsAntisymmetric(b, a, order);
    CompareCellsAntisymmetric(c, b, order);
    CompareCellsAntisymmetric(c, a, order);
    CompareCellsTransitive(a, b, c, order);
    if CompareCells(c, a, order) == 0 {
      CompareCellsTransitive(b, c, a, order);
    }
  }

  // ---------------------------------------------------------------------
  // Agreement with numeric order on decimal strings

  predicate IsDigits(s: string) {
    forall k :: 0 <= k < |s| ==> '0' <= s[k] <= '9'
  }

  function Pow10(n: nat): (r: nat)
    ensures r > 0
  {
    if n == 0 then 1 else 10 * Pow10(n - 1)
  }

  function Digit(c: char): (d: nat)
    requires '0' <= c <= '9'
  {
    (c as int - '0' as int) as nat
  }

  /** The number a string of decimal digits denotes ("" denotes 0). */
  function Value(s: string): (v: nat)
    requires IsDigits(s)
  {
    if s == [] then 0 else 10 * Value(s[..|s| - 1]) + Digit(s[|s| - 1])
  }

  function Sign(x: int): (r: int) {
    if x < 0 then -1 else if x > 0 then 1 else 0
  }

  lemma {:induction false} ValueBound(s: string)
    requires IsDigits(s)
    ensures Value(s) < Pow10(|s|)
  {
    if s != [] {
      ValueBound(s[..|s| - 1]);
    }
  }

  /** The leading digit contributes its weight, the rest its own value. */
  lemma {:induction false} ValueFront(s: string)
    requires IsDigits(s) && s != []
    ensures Value(s) == Digit(s[0]) * Pow10(|s| - 1) + Value(s[1..])
  {
    if |s| == 1 {
      assert s[..0] == [] && s[1..] == [];
    } else {
      var init, rest := s[..|s| - 1], s[1..];
      ValueFront(init);
      assert init[0] == s[0] && rest[..|rest| - 1] == init[1..] && rest[|rest| - 1] == s[|s| - 1];
      ShiftDigit(Digit(s[0]), Pow10(|s| - 2), Value(init[1..]), Digit(s[|s| - 1]));
    }
  }

  lemma ShiftDigit(d0: nat, p: nat, v: nat, d: nat)
    ensures 10 * (d0 * p + v) + d == d0 * (10 * p) + (10 * v + d)
  {
  }

  /** Leading zeros do not change the number. */
  lemma {:induction false} ValueLeadingZeros(n: nat, s: string)
    requires IsDigits(s)
    ensures IsDigits(Repeat('0', n) + s) && Value(Repeat('0', n) + s) == Value(s)
  {
    var t := Repeat('0', n) + s;
    assert IsDigits(t) by {
      forall k | 0 <= k < |t| ensures '0' <= t[k] <= '9' {
        if k >= n { assert t[k] == s[k - n]; }
      }
    }
    if s == [] {
      ZerosValue(n);
      assert t == Repeat('0', n);
    } else {
      var init := s[..|s| - 1];
      ValueLeadingZeros(n, init);
      assert t[..|t| - 1] == Repeat('0', n) + init;
      assert t[|t| - 1] == s[|s| - 1];
    }
  }

  /** A string of zeros denotes 0. */
  lemma {:induction false} ZerosValue(n: nat)
    ensures IsDigits(Repeat('0', n)) && Value(Repeat('0', n)) == 0
  {
    if n > 0 {
      ZerosValue(n - 1);
      assert Repeat('0', n)[..n - 1] == Repeat('0', n - 1);
    }
  }

  lemma MulLeq(a: nat, b: nat, p: nat)
    requires a <= b
    ensures a * p <= b * p
  {
  }

  /** A smaller leading digit gives a smaller number, whatever follows. */
  lemma LeadingDigitDecides(ds: nat, dt: nat, p: nat, vs: nat, vt: nat)
    requires ds < dt && vs < p
    ensures ds * p + vs < dt * p + vt
  {
    MulLeq(ds + 1, dt, p);
    assert (ds + 1) * p == ds * p + p;
  }

  /** On equal-length digit strings, compareTo orders by numeric value. */
  lemma {:induction false} LexCompareMatchesValue(s: string, t: string)
    requires IsDigits(s) && IsDigits(t) && |s| == |t|
    ensures LexCompare(s, t) == Sign(Value(s) - Value(t))
  {
    if s != [] {
      var p := Pow10(|s| - 1);
      var ds, dt := Digit(s[0]), Digit(t[0]);
      var vs, vt := Value(s[1..]), Value(t[1..]);
      ValueFront(s);
      ValueFront(t);
      if ds == dt {
        LexCompareMatchesValue(s[1..], t[1..]);
      } else if ds < dt {
        ValueBound(s[1..]);
        LeadingDigitDecides(ds, dt, p, vs, vt);
        assert s[0] < t[0];
      } else {
        ValueBound(t[1..]);
        LeadingDigitDecides(dt, ds, p, vt, vs);
        assert t[0] < s[0];
      }
    }
  }

  /** Padding to `size` is prefixing the missing number of pad characters. */
  lemma LeftPadPrefixes(s: string, size: int, pad: char)
    ensures LeftPad(s, size, pad) == Repeat(pad, Max(|s|, size) - |s|) + s
  {
    if size <= |s| {
      assert Repeat(pad, 0) + s == s;
    }
  }

  /** Two decimal strings padded to a common length compare as their numbers do. */
  lemma PaddedIsNumeric(c1: string, c2: string)
    requires IsDigits(c1) && IsDigits(c2)
    ensures var length := Max(|c1|, |c2|);
      LexCompare(LeftPad(c1, length, '0'), LeftPad(c2, length, '0')) == Sign(Value(c1) - Value(c2))
  {
    var length := Max(|c1|, |c2|);
    var p1, p2 := LeftPad(c1, length, '0'), LeftPad(c2, length, '0');
    PaddedValue(c1, length);
    PaddedValue(c2, length);
    assert |p1| == |p2| == length;
    SameValuesCompare(p1, p2, Value(c1), Value(c2));
  }

  /** LexCompareMatchesValue with the values named, so that the padded strings' values need not be unfolded. */
  lemma SameValuesCompare(s1: string, s2: string, v1: nat, v2: nat)
    requires IsDigits(s1) && IsDigits(s2) && |s1| == |s2| && Value(s1) == v1 && Value(s2) == v2
    ensures LexCompare(s1, s2) == Sign(v1 - v2)
  {
    LexCompareMatchesValue(s1, s2);
  }

  /** Ascending, two non-empty decimal cells compare as their numbers do. */
  lemma AscendingIsNumeric(c1: string, c2: string)
    requires c1 != "" && c2 != "" && IsDigits(c1) && IsDigits(c2)
    ensures CompareCells(c1, c2, true) == Sign(Value(c1) - Value(c2))
  {
    PaddedIsNumeric(c1, c2);
  }

  /**
   * For non-empty cells of decimal digits the padded comparison is the
   * numeric one: ascending puts the smaller number first, descending the
   * larger, so "1" < "2" < "10" although "10" < "2" as plain strings.
   */
  lemma CompareCellsNumeric(c1: string, c2: string, order: bool)
    requires c1 != "" && c2 != "" && IsDigits(c1) && IsDigits(c2)
    ensures order ==> CompareCells(c1, c2, order) == Sign(Value(c1) - Value(c2))
    ensures !order ==> CompareCells(c1, c2, order) == Sign(Value(c2) - Value(c1))
  {
    AscendingIsNumeric(c1, c2);
    CompareCellsFlipOrder(c1, c2, true);
  }

  /** Left-padding a digit string with '0' keeps it a digit string of the same value. */
  lemma PaddedValue(c: string, size: int)
    requires IsDigits(c)
    ensures IsDigits(LeftPad(c, size, '0')) && Value(LeftPad(c, size, '0')) == Value(c)
  {
    LeftPadPrefixes(c, size, '0');
    ValueLeadingZeros(Max(|c|, size) - |c|, c);
  }

  /** The worked example: ascending, "1" before "2" before "10". */
  lemma NumericExample()
    ensures CompareCells("1", "2", true) < 0
    ensures CompareCells("2", "10", true) < 0
    ensures CompareCells("10", "2", false) < 0
    ensures LexCompare("10", "2") < 0
  {
    CompareCellsNumeric("1", "2", true);
    CompareCellsNumeric("2", "10", true);
    CompareCellsNumeric("10", "2", false);
  }

  // ---------------------------------------------------------------------
  // Sorting the body

  /** In a sorted body, every row after one with an empty sort cell is empty there too. */
  lemma {:induction false} EmptyCellsLast(rows: seq<Row>, index: int, order: bool, i: int, j: int)
    requires SortedBy(rows, index, order)
    requires 0 <= i <= j < |rows| && 0 <= index < |rows[i]| && rows[i][index] == ""
    ensures 0 <= index < |rows[j]| && rows[j][index] == ""
  {
    if i < j {
      EmptyCellsLast(rows, index, order, i, j - 1);
    }
  }

  /** A body in comparator order has every pair of rows in order, not only neighbours. */
  lemma {:induction false} SortedPairwise(rows: seq<Row>, index: int, order: bool, i: int, j: int)
    requires SortedBy(rows, index, order) && 0 <= i < j < |rows|
    ensures 0 <= index < |rows[i]| && index < |rows[j]|
    ensures Compare(rows[i], rows[j], index, order) <= 0
  {
    if i < j - 1 {
      SortedPairwise(rows, index, order, i, j - 1);
      CompareCellsTransitive(rows[i][index], rows[j - 1][index], rows[j][index], order);
    }
  }

  /** Exchanges the rows at `j - 1` and `j`. */
  function Swap(rows: seq<Row>, j: int): (r: seq<Row>)
    requires 0 < j < |rows|
    ensures |r| == |rows| && r[j - 1] == rows[j] && r[j] == rows[j - 1]
    ensures forall k :: 0 <= k < |rows| && k != j - 1 && k != j ==> r[k] == rows[k]
    ensures multiset(r) == multiset(rows)
  {
    rows[j - 1 := rows[j]][j := rows[j - 1]]
  }

  /**
   * The state of insertion: the rows up to `i` are in order except possibly
   * at `j`, the position of the row being inserted, and the row before it
   * is not after the row behind it.
   */
  predicate Inserting(rows: seq<Row>, index: int, order: bool, i: int, j: int) {
    && 0 <= j <= i < |rows|
    && WellFormed(rows, index)
    && (forall k :: 0 < k <= i && k != j ==> Compare(rows[k - 1], rows[k], index, order) <= 0)
    && (0 < j < i ==> Compare(rows[j - 1], rows[j + 1], index, order) <= 0)
  }

  /** Moving the inserted row one place left keeps the insertion state. */
  lemma InsertStep(rows: seq<Row>, index: int, order: bool, i: int, j: int)
    requires Inserting(rows, index, order, i, j) && j > 0
    requires Compare(rows[j - 1], rows[j], index, order) > 0
    ensures Inserting(Swap(rows, j), index, order, i, j - 1)
  {
    CompareCellsAntisymmetric(rows[j - 1][index], rows[j][index], order);
    var r := Swap(rows, j);
    forall k | 0 < k <= i && k != j - 1
      ensures Compare(r[k - 1], r[k], index, order) <= 0
    {
      if k == j + 1 {
        assert r[k - 1] == rows[j - 1] && r[k] == rows[j + 1];
      } else if k == j {
        assert r[k - 1] == rows[j] && r[k] == rows[j - 1];
      } else if k < j - 1 || k > j + 1 {
        assert r[k - 1] == rows[k - 1] && r[k] == rows[k];
      }
    }
    if 0 < j - 1 {
      assert r[j - 2] == rows[j - 2] && r[j] == rows[j - 1];
    }
  }

  /**
   * Collections.sort(body, comparator): an insertion sort by adjacent swaps.
   * The result is a permutation of the input in comparator order.
   */
  method InsertionSort(rows: seq<Row>, index: int, order: bool) returns (sorted: seq<Row>)
    requires WellFormed(rows, index)
    ensures multiset(sorted) == multiset(rows)
    ensures SortedBy(sorted, index, order)
  {
    sorted := rows;
    var i := 0;
    while i < |sorted|
      invariant 0 <= i <= |sorted| == |rows|
      invariant multiset(sorted) == multiset(rows)
      invariant WellFormed(sorted, index)
      invariant forall k :: 0 < k < i ==> Compare(sorted[k - 1], sorted[k], index, order) <= 0
    {
      var j := i;
      while j > 0 && Compare(sorted[j - 1], sorted[j], index, order) > 0
        invariant Inserting(sorted, index, order, i, j)
        invariant |sorted| == |rows| && multiset(sorted) == multiset(rows)
      {
        InsertStep(sorted, index, order, i, j);
        sorted := Swap(sorted, j);
        j := j - 1;
      }
      i := i + 1;
    }
  }

  /** Ascending on column 0, ["1"] precedes ["2"] precedes ["10"], and not the other way. */
  lemma ExampleRowOrder()
    ensures Compare(["1"], ["2"], 0, true) < 0 && Compare(["2"], ["1"], 0, true) > 0
    ensures Compare(["2"], ["10"], 0, true) < 0 && Compare(["10"], ["2"], 0, true) > 0
    ensures Compare(["1"], ["10"], 0, true) < 0 && Compare(["10"], ["1"], 0, true) > 0
  {
    CompareCellsNumeric("1", "2", true);
    CompareCellsNumeric("2", "10", true);
    CompareCellsNumeric("1", "10", true);
    CompareCellsAntisymmetric("1", "2", true);
    CompareCellsAntisymmetric("2", "10", true);
    CompareCellsAntisymmetric("1", "10", true);
  }

  /** A sequence with the elements of three distinct rows lists each of them once. */
  lemma PermutationOfThree<T>(s: seq<T>, a: T, b: T, c: T)
    requires a != b && b != c && a != c
    requires multiset(s) == multiset{a, b, c}
    ensures |s| == 3 && s[0] != s[1] && s[1] != s[2] && s[0] != s[2]
    ensures forall k :: 0 <= k < 3 ==> s[k] == a || s[k] == b || s[k] == c
  {
    assert |s| == 3 by { assert |multiset(s)| == |s|; }
    var x, y, z := s[0], s[1], s[2];
    assert s == [x, y, z];
    var m := multiset{x, y, z};
    assert m == multiset{a, b, c};
    forall k | 0 <= k < 3 ensures s[k] == a || s[k] == b || s[k] == c {
      assert s[k] in m;
    }
    assert m[a] == 1 && m[b] == 1 && m[c] == 1;
  }

  /**
   * Three rows that the comparator strictly orders a, b, c can only be
   * sorted one way.
   */
  lemma ThreeRowsSorted(s: seq<Row>, a: Row, b: Row, c: Row, index: int, order: bool)
    requires 0 <= index < |a| && index < |b| && index < |c|
    requires Compare(b, a, index, order) > 0 && Compare(c, b, index, order) > 0
    requires multiset(s) == multiset{a, b, c}
    requires SortedBy(s, index, order)
    ensures s == [a, b, c]
  {
    CompareCellsStrictlyTransitive(a[index], b[index], c[index], order);
    ThreeRowsArranged(s, a, b, c, index, order);
  }

  /** The case analysis of ThreeRowsSorted, with all three strict comparisons given. */
  lemma ThreeRowsArranged(s: seq<Row>, a: Row, b: Row, c: Row, index: int, order: bool)
    requires 0 <= index < |a| && index < |b| && index < |c|
    requires Compare(b, a, index, order) > 0 && Compare(c, b, index, order) > 0
    requires Compare(c, a, index, order) > 0
    requires multiset(s) == multiset{a, b, c}
    requires SortedBy(s, index, order)
    ensures s == [a, b, c]
  {
    PermutationOfThree(s, a, b, c);
    var x, y, z := s[0], s[1], s[2];
    assert Compare(x, y, index, order) <= 0 && Compare(y, z, index, order) <= 0;
    assert y == b;
    assert s == [x, y, z];
  }

  /** Sorting ["10", "2", "1"] ascending gives ["1", "2", "10"] and nothing else. */
  lemma SortExample(s: seq<Row>)
    requires multiset(s) == multiset{["10"], ["2"], ["1"]}
    requires SortedBy(s, 0, true)
    ensures s == [["1"], ["2"], ["10"]]
  {
    ExampleRowOrder();
    assert multiset{["10"], ["2"], ["1"]} == multiset{["1"], ["2"], ["10"]};
    ThreeRowsSorted(s, ["1"], ["2"], ["10"], 0, true);
  }
}
