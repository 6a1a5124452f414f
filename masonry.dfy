/**
 * The masonry layout shared by `MosaicPage` (frontend pages/mosaic/MosaicPage.jsx) and its older
 * twin `MosaicComponent` (frontend components/MosaicComponent.jsx): the column count chosen
 * from the window width, and the round-robin placement of items into the columns.
 */
module Masonry {

  /** `calcNumCols`: one column up to 600 pixels, otherwise one per full 300 pixels. */
  function CalcNumCols(width: int): (n: int)
    ensures n >= 1
    ensures width <= 600 ==> n == 1
    ensures width > 600 ==> n >= 2 && n * 300 <= width < (n + 1) * 300
  {
    if width <= 600 then 1 else width / 300
  }

  /** Column `c` of `n`: the item at `c` of each full or partial round of `n` items, in input order. */
  function Column<T>(items: seq<T>, n: int, c: int): (col: seq<T>)
    requires 0 <= c < n
    decreases |items|
  {
    if |items| <= c then []
    else [items[c]] + (if n < |items| then Column(items[n..], n, c) else [])
  }

  /** `cols` holds exactly the `n` columns of `items`. */
  ghost predicate Placed<T>(cols: seq<seq<T>>, items: seq<T>, n: int)
    requires n >= 1
  {
    |cols| == n && forall c :: 0 <= c < n ==> cols[c] == Column(items, n, c)
  }

  /**
   * The column effect: `numCols` empty columns, then each item pushed onto the column the
   * counter names, the counter advancing modulo `numCols`.
   */
  method Distribute<T>(items: seq<T>, numCols: int) returns (cols: seq<seq<T>>)
    requires numCols >= 1
    ensures |cols| == numCols
    ensures forall c :: 0 <= c < numCols ==> cols[c] == Column(items, numCols, c)
  {
    cols := [];
    for i := 0 to numCols
      invariant |cols| == i
      invariant forall c :: 0 <= c < i ==> cols[c] == []
    {
      cols := cols + [[]];
    }
    var col := 0;
    PlacedStart(cols, items, numCols);
    for i := 0 to |items|
      invariant col == i % numCols
      invariant Placed(cols, items[..i], numCols)
    {
      PlaceStep(cols, items, i, numCols);
      ModNext(i, numCols);
      cols := cols[col := cols[col] + [items[i]]];
      col := (col + 1) % numCols;
    }
    assert items[..|items|] == items;
    assert Placed(cols, items, numCols);
  }

  /** Before any item is placed every column is empty. */
  lemma PlacedStart<T>(cols: seq<seq<T>>, items: seq<T>, n: int)
    requires n >= 1 && |cols| == n
    requires forall c :: 0 <= c < n ==> cols[c] == []
    ensures Placed(cols, items[..0], n)
  {
    assert items[..0] == [];
  }

  /** Placing the item at position `i` extends column `i % n` and no other. */
  lemma PlaceStep<T>(cols: seq<seq<T>>, items: seq<T>, i: int, n: int)
    requires n >= 1 && 0 <= i < |items| && Placed(cols, items[..i], n)
    ensures Placed(cols[i % n := cols[i % n] + [items[i]]], items[..i + 1], n)
  {
    forall c | 0 <= c < n {
      ColumnStep(items, n, i, c);
    }
  }

  /** A non-zero multiple of a positive `n` is at least `n` away from zero. */
  lemma {:induction false} MulSign(k: int, n: int)
    requires n >= 1
    ensures k >= 1 ==> k * n >= n
    ensures k <= -1 ==> k * n <= -n
    decreases if k < 0 then -k else k
  {
    if k > 1 {
      MulSign(k - 1, n);
      assert k * n == (k - 1) * n + n;
    } else if k < -1 {
      MulSign(k + 1, n);
      assert k * n == (k + 1) * n - n;
    }
  }

  /** Quotient and remainder by a positive `n` are the only ones with the remainder in range. */
  lemma DivModUnique(x: int, n: int, q: int, r: int)
    requires n >= 1 && 0 <= r < n && x == q * n + r
    ensures x / n == q && x % n == r
  {
    var q0, r0 := x / n, x % n;
    assert x == q0 * n + r0;
    assert (q - q0) * n == r0 - r;
    MulSign(q - q0, n);
  }

  /** How the quotient and remainder by `n` move when the dividend grows by one. */
  lemma DivModNext(L: int, n: int)
    requires L >= 0 && n >= 1
    ensures L % n == n - 1 ==> (L + 1) / n == L / n + 1 && (L + 1) % n == 0
    ensures L % n < n - 1 ==> (L + 1) / n == L / n && (L + 1) % n == L % n + 1
  {
    var q, r := L / n, L % n;
    assert L == q * n + r;
    if r == n - 1 {
      assert (q + 1) * n == q * n + n;
      DivModUnique(L + 1, n, q + 1, 0);
    } else {
      DivModUnique(L + 1, n, q, r + 1);
    }
  }

  /** The counter step `(col + 1) % n` follows the position. */
  lemma ModNext(L: int, n: int)
    requires L >= 0 && n >= 1
    ensures (L + 1) % n == (L % n + 1) % n
  {
    DivModNext(L, n);
    DivModUnique(L % n + 1, n, if L % n == n - 1 then 1 else 0, if L % n == n - 1 then 0 else L % n + 1);
  }

  /** A position inside the first round is its own remainder. */
  lemma ModSmall(i: int, n: int)
    requires 0 <= i < n
    ensures i % n == i
  {
    DivModUnique(i, n, 0, i);
  }

  /** Positions one round apart have the same remainder. */
  lemma ModShift(i: int, n: int)
    requires 1 <= n <= i
    ensures i % n == (i - n) % n
  {
    var q := (i - n) / n;
    assert i - n == q * n + (i - n) % n;
    assert (q + 1) * n == q * n + n;
    DivModUnique(i, n, q + 1, (i - n) % n);
  }

  /** The item at position `i` lands at the end of column `i % n`; the other columns keep their items. */
  lemma {:induction false} ColumnStep<T>(items: seq<T>, n: int, i: int, c: int)
    requires 0 <= c < n && 0 <= i < |items|
    ensures Column(items[..i + 1], n, c) == Column(items[..i], n, c) + (if i % n == c then [items[i]] else [])
    decreases i
  {
    var a, b := items[..i + 1], items[..i];
    if i < n {
      ModSmall(i, n);
    } else {
      var rest := items[n..];
      assert a[n..] == rest[..i - n + 1];
      assert b[n..] == rest[..i - n];
      ModShift(i, n);
      ColumnStep(rest, n, i - n, c);
      if i == n {
        assert b[n..] == [];
      }
    }
  }

  /** Column `c` holds one item per full round, plus one if the last round reached it. */
  lemma {:induction false} ColumnSize<T>(items: seq<T>, n: int, c: int)
    requires n >= 1 && 0 <= c < n
    ensures |Column(items, n, c)| == |items| / n + (if c < |items| % n then 1 else 0)
  {
    if |items| > 0 {
      var last := |items| - 1;
      ColumnSize(items[..last], n, c);
      ColumnStep(items, n, last, c);
      assert items[..last + 1] == items;
      DivModNext(last, n);
    }
  }

  /** The item at position `i` is in column `i % n`, at row `i / n`. */
  lemma {:induction false} ColumnPosition<T>(items: seq<T>, n: int, i: int)
    requires n >= 1 && 0 <= i < |items|
    ensures i / n < |Column(items, n, i % n)|
    ensures Column(items, n, i % n)[i / n] == items[i]
  {
    var last := |items| - 1;
    var init := items[..last];
    ColumnStep(items, n, last, i % n);
    assert items[..last + 1] == items;
    if i < last {
      ColumnPosition(init, n, i);
    } else {
      ColumnSize(init, n, i % n);
    }
  }

  /** Two items of the same column keep their input order: the earlier one is in an earlier row. */
  lemma ColumnOrder(n: int, i: int, j: int)
    requires n >= 1 && 0 <= i < j && i % n == j % n
    ensures i / n < j / n
  {
    assert i == (i / n) * n + i % n;
    assert j == (j / n) * n + j % n;
    assert (j / n - i / n) * n == j - i;
    MulSign(j / n - i / n, n);
  }

  /** Column sizes differ by at most one, and no column is longer than one before it. */
  lemma ColumnsBalanced<T>(items: seq<T>, n: int, c: int, d: int)
    requires n >= 1 && 0 <= c <= d < n
    ensures |Column(items, n, d)| <= |Column(items, n, c)| <= |Column(items, n, d)| + 1
  {
    ColumnSize(items, n, c);
    ColumnSize(items, n, d);
  }

  /** The total number of items in the columns. */
  function Total<T>(cols: seq<seq<T>>): nat
  {
    if |cols| == 0 then 0 else Total(cols[..|cols| - 1]) + |cols[|cols| - 1]|
  }

  /** Empty columns hold nothing. */
  lemma {:induction false} TotalEmpty<T>(cols: seq<seq<T>>)
    requires forall c :: 0 <= c < |cols| ==> cols[c] == []
    ensures Total(cols) == 0
  {
    if |cols| > 0 {
      TotalEmpty(cols[..|cols| - 1]);
    }
  }

  /** Adding one item to one column adds one to the total. */
  lemma {:induction false} TotalGrow<T>(cols: seq<seq<T>>, k: int, x: T)
    requires 0 <= k < |cols|
    ensures Total(cols[k := cols[k] + [x]]) == Total(cols) + 1
  {
    var grown := cols[k := cols[k] + [x]];
    var last := |cols| - 1;
    if k == last {
      assert grown[..last] == cols[..last];
    } else {
      assert grown[..last] == cols[..last][k := cols[k] + [x]];
      TotalGrow(cols[..last], k, x);
    }
  }

  /** The columns hold exactly as many items as were placed: none is lost or duplicated. */
  lemma {:induction false} TotalCount<T>(items: seq<T>, n: int, cols: seq<seq<T>>)
    requires n >= 1 && |cols| == n
    requires forall c :: 0 <= c < n ==> cols[c] == Column(items, n, c)
    ensures Total(cols) == |items|
  {
    if |items| > 0 {
      var last := |items| - 1;
      var init := items[..last];
      var k := last % n;
      var before := cols[k := Column(init, n, k)];
      assert items[..last + 1] == items;
      forall c | 0 <= c < n {
        ColumnStep(items, n, last, c);
      }
      PlaceStep(before, items, last, n);
      assert cols == before[k := before[k] + [items[last]]];
      TotalCount(init, n, before);
      TotalGrow(before, k, items[last]);
    } else {
      TotalEmpty(cols);
    }
  }
}
