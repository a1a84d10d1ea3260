/**
 * The stable multi-key sort `column_values.sort(key=...)`: rows are ordered
 * by the tuple of their key columns under Python's `<`, and rows with equal
 * keys keep their relative order.
 */
module Sorting {
  import opened Accounts
  import opened Ordering

  /** The sort key of a row: `[row[s] for s in indices]`. */
  function Key(row: Row, cols: seq<ColumnIndex>): seq<string>
  {
    seq(|cols|, i requires 0 <= i < |cols| => row[cols[i]])
  }

  /** Non-decreasing: no row's key is smaller than the key of a row before it. */
  predicate Sorted(rows: seq<Row>, cols: seq<ColumnIndex>)
  {
    forall p, q :: 0 <= p < q < |rows| ==> !KeyLess(Key(rows[q], cols), Key(rows[p], cols))
  }

  /** The rows whose key is `k`, in their order in `rows`. */
  function ClassOf(rows: seq<Row>, cols: seq<ColumnIndex>, k: seq<string>): seq<Row>
  {
    if rows == [] then []
    else (if Key(rows[0], cols) == k then [rows[0]] else []) + ClassOf(rows[1..], cols, k)
  }

  /**
   * Stability, stated between two row lists: for every key, the rows having
   * that key appear in the same order in both.
   */
  ghost predicate SameClasses(s: seq<Row>, t: seq<Row>, cols: seq<ColumnIndex>)
  {
    forall k :: ClassOf(s, cols, k) == ClassOf(t, cols, k)
  }

  lemma {:induction false} ClassOfAppend(s: seq<Row>, t: seq<Row>, cols: seq<ColumnIndex>, k: seq<string>)
    ensures ClassOf(s + t, cols, k) == ClassOf(s, cols, k) + ClassOf(t, cols, k)
  {
    if s == [] {
      assert s + t == t;
    } else {
      assert (s + t)[0] == s[0];
      assert (s + t)[1..] == s[1..] + t;
      ClassOfAppend(s[1..], t, cols, k);
    }
  }

  /** A class holds only rows of the list, and only rows with that key. */
  lemma {:induction false} ClassMembers(s: seq<Row>, cols: seq<ColumnIndex>, k: seq<string>, r: Row)
    requires r in ClassOf(s, cols, k)
    ensures r in s && Key(r, cols) == k
  {
    if s != [] {
      if r != s[0] || Key(s[0], cols) != k {
        ClassMembers(s[1..], cols, k, r);
      }
    }
  }

  /** Swapping two neighbours with different keys keeps every class as it was. */
  lemma SwapKeepsClasses(s: seq<Row>, j: nat, cols: seq<ColumnIndex>)
    requires 0 < j < |s| && Key(s[j - 1], cols) != Key(s[j], cols)
    ensures SameClasses(s[j - 1 := s[j]][j := s[j - 1]], s, cols)
  {
    var t := s[j - 1 := s[j]][j := s[j - 1]];
    assert s == s[..j - 1] + [s[j - 1], s[j]] + s[j + 1..];
    assert t == s[..j - 1] + [s[j], s[j - 1]] + s[j + 1..];
    forall k
      ensures ClassOf(t, cols, k) == ClassOf(s, cols, k)
    {
      ClassOfAppend(s[..j - 1] + [s[j - 1], s[j]], s[j + 1..], cols, k);
      ClassOfAppend(s[..j - 1], [s[j - 1], s[j]], cols, k);
      ClassOfAppend(s[..j - 1] + [s[j], s[j - 1]], s[j + 1..], cols, k);
      ClassOfAppend(s[..j - 1], [s[j], s[j - 1]], cols, k);
      assert [s[j - 1], s[j]][1..] == [s[j]];
      assert [s[j], s[j - 1]][1..] == [s[j - 1]];
    }
  }

  /** The first row of a list is the first row of its own class. */
  lemma ClassOfHead(s: seq<Row>, cols: seq<ColumnIndex>)
    requires s != []
    ensures ClassOf(s, cols, Key(s[0], cols)) == [s[0]] + ClassOf(s[1..], cols, Key(s[0], cols))
  {
  }

  /**
   * Sortedness and stability leave no freedom: two sorted lists with the
   * same classes are equal. So every stable sort, Python's included, yields
   * the same rows as `StableSort` below.
   */
  lemma {:induction false} SortedStableUnique(s1: seq<Row>, s2: seq<Row>, cols: seq<ColumnIndex>)
    requires Sorted(s1, cols) && Sorted(s2, cols) && SameClasses(s1, s2, cols)
    ensures s1 == s2
    decreases |s1|
  {
    if s1 == [] && s2 == [] {
    } else if s1 == [] {
      ClassOfHead(s2, cols);
      assert false;
    } else if s2 == [] {
      ClassOfHead(s1, cols);
      assert false;
    } else {
      var x, y := s1[0], s2[0];
      var kx, ky := Key(x, cols), Key(y, cols);
      assert ClassOf(s1, cols, kx) == [x] + ClassOf(s1[1..], cols, kx);
      assert ClassOf(s2, cols, ky) == [y] + ClassOf(s2[1..], cols, ky);
      ClassMembers(s2, cols, kx, x);
      ClassMembers(s1, cols, ky, y);
      var m :| 0 <= m < |s2| && s2[m] == x;
      var n :| 0 <= n < |s1| && s1[n] == y;
      if m == 0 { KeyLessIrreflexive(kx); }
      if n == 0 { KeyLessIrreflexive(ky); }
      assert !KeyLess(kx, ky) && !KeyLess(ky, kx);
      if kx != ky {
        KeyLessTotal(kx, ky);
      }
      assert ClassOf(s1, cols, kx) == ClassOf(s2, cols, kx);
      assert x == ClassOf(s1, cols, kx)[0] == ClassOf(s2, cols, ky)[0] == y;
      forall k
        ensures ClassOf(s1[1..], cols, k) == ClassOf(s2[1..], cols, k)
      {
        var head := if kx == k then [x] else [];
        assert ClassOf(s1, cols, k) == head + ClassOf(s1[1..], cols, k);
        assert ClassOf(s2, cols, k) == head + ClassOf(s2[1..], cols, k);
        assert ClassOf(s1[1..], cols, k) == ClassOf(s1, cols, k)[|head|..];
        assert ClassOf(s2[1..], cols, k) == ClassOf(s2, cols, k)[|head|..];
      }
      SortedStableUnique(s1[1..], s2[1..], cols);
      assert s1 == [x] + s1[1..] && s2 == [y] + s2[1..];
    }
  }

  /** Puts `x` before the first row whose key is not smaller than `x`'s. */
  function Insert(x: Row, rows: seq<Row>, cols: seq<ColumnIndex>): seq<Row>
  {
    if rows == [] then [x]
    else if KeyLess(Key(rows[0], cols), Key(x, cols)) then [rows[0]] + Insert(x, rows[1..], cols)
    else [x] + rows
  }

  lemma {:induction false} InsertPermutes(x: Row, rows: seq<Row>, cols: seq<ColumnIndex>)
    ensures multiset(Insert(x, rows, cols)) == multiset(rows) + multiset{x}
  {
    if rows != [] && KeyLess(Key(rows[0], cols), Key(x, cols)) {
      InsertPermutes(x, rows[1..], cols);
      assert rows == [rows[0]] + rows[1..];
    }
  }

  lemma {:induction false} InsertSorted(x: Row, rows: seq<Row>, cols: seq<ColumnIndex>)
    requires Sorted(rows, cols)
    ensures Sorted(Insert(x, rows, cols), cols)
  {
    if rows == [] {
    } else if KeyLess(Key(rows[0], cols), Key(x, cols)) {
      var h, t := rows[0], Insert(x, rows[1..], cols);
      var r := [h] + t;
      assert Sorted(rows[1..], cols);
      InsertSorted(x, rows[1..], cols);
      InsertPermutes(x, rows[1..], cols);
      forall q | 0 < q < |r|
        ensures !KeyLess(Key(r[q], cols), Key(h, cols))
      {
        assert r[q] == t[q - 1];
        assert r[q] in multiset(t);
        if r[q] == x {
          KeyLessAsymmetric(Key(h, cols), Key(x, cols));
        } else {
          assert r[q] in multiset(rows[1..]);
          var m :| 0 <= m < |rows[1..]| && rows[1..][m] == r[q];
          assert rows[m + 1] == r[q];
        }
      }
    } else {
      forall q | 0 < q < |rows|
        ensures !KeyLess(Key(rows[q], cols), Key(x, cols))
      {
        NotLessTransitive(Key(x, cols), Key(rows[0], cols), Key(rows[q], cols));
      }
    }
  }

  /**
   * `x` only passes rows with strictly smaller keys, never one of its own
   * class, so every class is as if `x` had been put in front.
   */
  lemma {:induction false} InsertClass(x: Row, rows: seq<Row>, cols: seq<ColumnIndex>, k: seq<string>)
    ensures ClassOf(Insert(x, rows, cols), cols, k) == ClassOf([x] + rows, cols, k)
  {
    if rows != [] && KeyLess(Key(rows[0], cols), Key(x, cols)) {
      var h, t := rows[0], Insert(x, rows[1..], cols);
      KeyLessIrreflexive(Key(x, cols));
      var hc := if Key(h, cols) == k then [h] else [];
      var xc := if Key(x, cols) == k then [x] else [];
      assert hc == [] || xc == [];
      calc {
        ClassOf(Insert(x, rows, cols), cols, k);
        { assert ([h] + t)[0] == h && ([h] + t)[1..] == t; }
        hc + ClassOf(t, cols, k);
        { InsertClass(x, rows[1..], cols, k); }
        hc + ClassOf([x] + rows[1..], cols, k);
        { assert ([x] + rows[1..])[0] == x && ([x] + rows[1..])[1..] == rows[1..]; }
        hc + (xc + ClassOf(rows[1..], cols, k));
        xc + (hc + ClassOf(rows[1..], cols, k));
        xc + ClassOf(rows, cols, k);
        { assert ([x] + rows)[0] == x && ([x] + rows)[1..] == rows; }
        ClassOf([x] + rows, cols, k);
      }
    }
  }

  /**
   * The reference stable sort (insertion from the right): a permutation of
   * its input, sorted by key, and stable.
   */
  function StableSort(rows: seq<Row>, cols: seq<ColumnIndex>): (r: seq<Row>)
    ensures multiset(r) == multiset(rows)
    ensures Sorted(r, cols)
    ensures SameClasses(r, rows, cols)
  {
    if rows == [] then []
    else
      var rest := StableSort(rows[1..], cols);
      var r := Insert(rows[0], rest, cols);
      InsertPermutes(rows[0], rest, cols);
      InsertSorted(rows[0], rest, cols);
      assert rows == [rows[0]] + rows[1..];
      forall k
        ensures ClassOf(r, cols, k) == ClassOf(rows, cols, k)
      {
        InsertClass(rows[0], rest, cols, k);
        assert ([rows[0]] + rest)[0] == rows[0] && ([rows[0]] + rest)[1..] == rest;
        assert ClassOf(rest, cols, k) == ClassOf(rows[1..], cols, k);
      }
      r
  }

  /** Sorting rows that are already in order changes nothing. */
  lemma SortSortedUnchanged(rows: seq<Row>, cols: seq<ColumnIndex>)
    requires Sorted(rows, cols)
    ensures StableSort(rows, cols) == rows
  {
    SortedStableUnique(StableSort(rows, cols), rows, cols);
  }

  /** With no key columns every key is empty, and the stable sort keeps the original order. */
  lemma SortWithoutKeysUnchanged(rows: seq<Row>)
    ensures StableSort(rows, []) == rows
  {
    SortSortedUnchanged(rows, []);
  }

  /** Sorting twice by the same key is sorting once. */
  lemma SortIdempotent(rows: seq<Row>, cols: seq<ColumnIndex>)
    ensures StableSort(StableSort(rows, cols), cols) == StableSort(rows, cols)
  {
    SortSortedUnchanged(StableSort(rows, cols), cols);
  }

  // The insertion step of `SortRows`, stated on the array's contents: row
  // `j` is moving left; the rows up to `i` other than it are in order, and
  // every row it has already passed has a strictly greater key.

  predicate SortedExcept(s: seq<Row>, i: nat, j: nat, cols: seq<ColumnIndex>)
    requires i < |s|
  {
    forall p, q :: 0 <= p < q <= i && p != j && q != j ==> !KeyLess(Key(s[q], cols), Key(s[p], cols))
  }

  predicate LessThanPassed(s: seq<Row>, i: nat, j: nat, cols: seq<ColumnIndex>)
    requires j <= i < |s|
  {
    forall q :: j < q <= i ==> KeyLess(Key(s[j], cols), Key(s[q], cols))
  }

  /** Before row `i` moves, the rows before it are sorted. */
  lemma StepStart(s: seq<Row>, i: nat, cols: seq<ColumnIndex>)
    requires i < |s| && Sorted(s[..i], cols)
    ensures SortedExcept(s, i, i, cols) && LessThanPassed(s, i, i, cols)
  {
    forall p, q | 0 <= p < q <= i && p != i && q != i
      ensures !KeyLess(Key(s[q], cols), Key(s[p], cols))
    {
      assert s[..i][p] == s[p] && s[..i][q] == s[q];
    }
  }

  /** Swapping the moving row with a left neighbour of greater key keeps the step's invariant. */
  lemma StepSwap(s: seq<Row>, i: nat, j: nat, cols: seq<ColumnIndex>)
    requires 0 < j <= i < |s|
    requires SortedExcept(s, i, j, cols) && LessThanPassed(s, i, j, cols)
    requires KeyLess(Key(s[j], cols), Key(s[j - 1], cols))
    ensures SortedExcept(s[j - 1 := s[j]][j := s[j - 1]], i, j - 1, cols)
    ensures LessThanPassed(s[j - 1 := s[j]][j := s[j - 1]], i, j - 1, cols)
  {
    var t := s[j - 1 := s[j]][j := s[j - 1]];
    forall p, q | 0 <= p < q <= i && p != j - 1 && q != j - 1
      ensures !KeyLess(Key(t[q], cols), Key(t[p], cols))
    {
      if q == j {
        assert t[q] == s[j - 1] && t[p] == s[p];
      } else if p == j {
        assert t[p] == s[j - 1] && t[q] == s[q];
      } else {
        assert t[p] == s[p] && t[q] == s[q];
      }
    }
    forall q | j - 1 < q <= i
      ensures KeyLess(Key(t[j - 1], cols), Key(t[q], cols))
    {
      if q > j {
        assert t[q] == s[q];
      }
    }
  }

  /** Once the moving row stops, the rows up to `i` are sorted. */
  lemma StepDone(s: seq<Row>, i: nat, j: nat, cols: seq<ColumnIndex>)
    requires j <= i < |s|
    requires SortedExcept(s, i, j, cols) && LessThanPassed(s, i, j, cols)
    requires j == 0 || !KeyLess(Key(s[j], cols), Key(s[j - 1], cols))
    ensures Sorted(s[..i + 1], cols)
  {
    forall p, q | 0 <= p < q <= i
      ensures !KeyLess(Key(s[q], cols), Key(s[p], cols))
    {
      if q == j && p < j - 1 {
        NotLessTransitive(Key(s[p], cols), Key(s[j - 1], cols), Key(s[j], cols));
      } else if p == j {
        KeyLessAsymmetric(Key(s[j], cols), Key(s[q], cols));
      }
    }
    var u := s[..i + 1];
    forall p, q | 0 <= p < q < |u|
      ensures !KeyLess(Key(u[q], cols), Key(u[p], cols))
    {
      assert u[p] == s[p] && u[q] == s[q];
    }
  }

  /**
   * `list.sort(key=...)` on the row list, in place: an insertion sort that
   * moves each row left past the rows whose key is strictly greater. It
   * leaves exactly the rows the reference stable sort produces.
   */
  method SortRows(a: array<Row>, cols: seq<ColumnIndex>)
    modifies a
    ensures a[..] == StableSort(old(a[..]), cols)
  {
    var i := 0;
    while i < a.Length
      invariant 0 <= i <= a.Length
      invariant Sorted(a[..i], cols)
      invariant SameClasses(a[..], old(a[..]), cols)
    {
      StepStart(a[..], i, cols);
      var j := i;
      while j > 0 && KeyLess(Key(a[j], cols), Key(a[j - 1], cols))
        invariant 0 <= j <= i
        invariant SortedExcept(a[..], i, j, cols) && LessThanPassed(a[..], i, j, cols)
        invariant SameClasses(a[..], old(a[..]), cols)
      {
        ghost var before := a[..];
        KeyLessIrreflexive(Key(a[j], cols));
        SwapKeepsClasses(before, j, cols);
        StepSwap(before, i, j, cols);
        a[j - 1], a[j] := a[j], a[j - 1];
        assert a[..] == before[j - 1 := before[j]][j := before[j - 1]];
        j := j - 1;
      }
      StepDone(a[..], i, j, cols);
      i := i + 1;
    }
    assert a[..a.Length] == a[..];
    SortedStableUnique(a[..], StableSort(old(a[..]), cols), cols);
  }
}
