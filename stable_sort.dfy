/**
 * A stable sort under a comparator that is a total preorder, as `List.sort` performs it:
 * insertion of each element in turn after every element it does not precede.
 */
module StableSort {

  /** The comparator contract `List.sort` relies on: antisymmetric in sign and transitive. */
  ghost predicate TotalPreorder<T(!new)>(cmp: (T, T) -> int)
  {
    && (forall a, b :: cmp(a, b) == -cmp(b, a))
    && (forall a, b, c :: cmp(a, b) <= 0 && cmp(b, c) <= 0 ==> cmp(a, c) <= 0)
  }

  predicate Sorted<T>(cmp: (T, T) -> int, s: seq<T>)
  {
    forall i, j :: 0 <= i < j < |s| ==> cmp(s[i], s[j]) <= 0
  }

  /** Inserts `x` before the first element it strictly precedes, so after the elements tied with it. */
  function Insert<T>(cmp: (T, T) -> int, x: T, s: seq<T>): (r: seq<T>)
    ensures |r| == |s| + 1
  {
    if |s| == 0 then [x]
    else if cmp(x, s[0]) < 0 then [x] + s
    else [s[0]] + Insert(cmp, x, s[1..])
  }

  /** Insertion of each element in turn, first to last. */
  function Sort<T>(cmp: (T, T) -> int, s: seq<T>): (r: seq<T>)
    ensures |r| == |s|
  {
    if |s| == 0 then []
    else Insert(cmp, s[|s| - 1], Sort(cmp, s[..|s| - 1]))
  }

  /** Insertion adds exactly the one element. */
  lemma {:induction false} InsertPermutes<T>(cmp: (T, T) -> int, x: T, s: seq<T>)
    ensures multiset(Insert(cmp, x, s)) == multiset(s) + multiset{x}
  {
    if |s| > 0 && cmp(x, s[0]) >= 0 {
      assert s == [s[0]] + s[1..];
      InsertPermutes(cmp, x, s[1..]);
    }
  }

  /** The sort is a permutation. */
  lemma {:induction false} SortPermutes<T>(cmp: (T, T) -> int, s: seq<T>)
    ensures multiset(Sort(cmp, s)) == multiset(s)
  {
    if |s| > 0 {
      assert s == s[..|s| - 1] + [s[|s| - 1]];
      SortPermutes(cmp, s[..|s| - 1]);
      InsertPermutes(cmp, s[|s| - 1], Sort(cmp, s[..|s| - 1]));
    }
  }

  lemma StrictChain<T(!new)>(cmp: (T, T) -> int, a: T, b: T, c: T)
    requires TotalPreorder(cmp)
    requires cmp(a, b) < 0 && cmp(b, c) <= 0
    ensures cmp(a, c) < 0
  {
    assert cmp(b, a) > 0 && cmp(a, c) <= 0;
    assert cmp(c, a) >= 0;
  }

  lemma {:induction false} InsertSorted<T(!new)>(cmp: (T, T) -> int, x: T, s: seq<T>)
    requires TotalPreorder(cmp)
    requires Sorted(cmp, s)
    ensures Sorted(cmp, Insert(cmp, x, s))
  {
    if |s| > 0 && cmp(x, s[0]) >= 0 {
      var rest := Insert(cmp, x, s[1..]);
      InsertSorted(cmp, x, s[1..]);
      InsertPermutes(cmp, x, s[1..]);
      var r := Insert(cmp, x, s);
      assert r == [s[0]] + rest;
      forall j | 0 < j < |r| ensures cmp(s[0], r[j]) <= 0 {
        assert r[j] in multiset(rest);
        if r[j] != x {
          assert r[j] in multiset(s[1..]);
          var k :| 0 <= k < |s[1..]| && s[1..][k] == r[j];
          assert s[k + 1] == r[j];
        }
      }
    }
  }

  /** The result of the sort is in comparator order. */
  lemma {:induction false} SortSorted<T(!new)>(cmp: (T, T) -> int, s: seq<T>)
    requires TotalPreorder(cmp)
    ensures Sorted(cmp, Sort(cmp, s))
  {
    if |s| > 0 {
      SortSorted(cmp, s[..|s| - 1]);
      InsertSorted(cmp, s[|s| - 1], Sort(cmp, s[..|s| - 1]));
    }
  }

  /** The elements tied with `y`, in order. */
  function Tied<T>(cmp: (T, T) -> int, s: seq<T>, y: T): (r: seq<T>)
    ensures |r| <= |s|
  {
    if |s| == 0 then []
    else if cmp(s[0], y) == 0 then [s[0]] + Tied(cmp, s[1..], y)
    else Tied(cmp, s[1..], y)
  }

  /** `x` alone when it is tied with `y`, nothing otherwise. */
  function Own<T>(cmp: (T, T) -> int, x: T, y: T): (r: seq<T>)
    ensures |r| <= 1
  {
    if cmp(x, y) == 0 then [x] else []
  }

  lemma TiedCons<T>(cmp: (T, T) -> int, h: T, t: seq<T>, y: T)
    ensures Tied(cmp, [h] + t, y) == Own(cmp, h, y) + Tied(cmp, t, y)
  {
    assert ([h] + t)[1..] == t;
  }

  lemma {:induction false} TiedSnoc<T>(cmp: (T, T) -> int, s: seq<T>, x: T, y: T)
    ensures Tied(cmp, s + [x], y) == Tied(cmp, s, y) + Own(cmp, x, y)
  {
    if |s| > 0 {
      assert (s + [x])[1..] == s[1..] + [x];
      TiedSnoc(cmp, s[1..], x, y);
      if cmp(s[0], y) == 0 {
        assert [s[0]] + (Tied(cmp, s[1..], y) + Own(cmp, x, y)) == ([s[0]] + Tied(cmp, s[1..], y)) + Own(cmp, x, y);
      }
    }
  }

  /** Nothing in `s` is tied with `y` when `x`, tied with `y`, strictly precedes all of `s`. */
  lemma {:induction false} TiedNone<T(!new)>(cmp: (T, T) -> int, s: seq<T>, x: T, y: T)
    requires TotalPreorder(cmp)
    requires cmp(x, y) == 0
    requires forall k :: 0 <= k < |s| ==> cmp(x, s[k]) < 0
    ensures Tied(cmp, s, y) == []
  {
    if |s| > 0 {
      assert cmp(y, x) == 0 && cmp(s[0], x) > 0;
      assert cmp(s[0], y) != 0;
      TiedNone(cmp, s[1..], x, y);
    }
  }

  lemma SortedTail<T>(cmp: (T, T) -> int, s: seq<T>)
    requires Sorted(cmp, s) && |s| > 0
    ensures Sorted(cmp, s[1..])
  {
    forall i, j | 0 <= i < j < |s| - 1 ensures cmp(s[1..][i], s[1..][j]) <= 0 {
      assert s[1..][i] == s[i + 1] && s[1..][j] == s[j + 1];
    }
  }

  /** Inserting before the head: the new element is alone in its tie class there. */
  lemma InsertTiedFront<T(!new)>(cmp: (T, T) -> int, x: T, s: seq<T>, y: T)
    requires TotalPreorder(cmp)
    requires Sorted(cmp, s) && |s| > 0 && cmp(x, s[0]) < 0
    ensures Tied(cmp, [x] + s, y) == Tied(cmp, s, y) + Own(cmp, x, y)
  {
    TiedCons(cmp, x, s, y);
    if cmp(x, y) == 0 {
      forall k | 0 <= k < |s| ensures cmp(x, s[k]) < 0 {
        StrictChain(cmp, x, s[0], s[k]);
      }
      TiedNone(cmp, s, x, y);
    }
  }

  /** Inserting into a sorted list appends the new element to its tie class. */
  lemma {:induction false} InsertTied<T(!new)>(cmp: (T, T) -> int, x: T, s: seq<T>, y: T)
    requires TotalPreorder(cmp)
    requires Sorted(cmp, s)
    ensures Tied(cmp, Insert(cmp, x, s), y) == Tied(cmp, s, y) + Own(cmp, x, y)
  {
    if |s| == 0 {
      TiedCons(cmp, x, [], y);
    } else if cmp(x, s[0]) < 0 {
      InsertTiedFront(cmp, x, s, y);
    } else {
      assert s == [s[0]] + s[1..];
      SortedTail(cmp, s);
      InsertTied(cmp, x, s[1..], y);
      InsertTiedStep(cmp, x, s[0], s[1..], y);
    }
  }

  lemma InsertBehind<T>(cmp: (T, T) -> int, x: T, h: T, t: seq<T>)
    requires cmp(x, h) >= 0
    ensures Insert(cmp, x, [h] + t) == [h] + Insert(cmp, x, t)
  {
    assert ([h] + t)[1..] == t;
  }

  /** Inserting behind the head: the head keeps its place in front of the rest of its tie class. */
  lemma InsertTiedStep<T>(cmp: (T, T) -> int, x: T, h: T, t: seq<T>, y: T)
    requires cmp(x, h) >= 0
    requires Tied(cmp, Insert(cmp, x, t), y) == Tied(cmp, t, y) + Own(cmp, x, y)
    ensures Tied(cmp, Insert(cmp, x, [h] + t), y) == Tied(cmp, [h] + t, y) + Own(cmp, x, y)
  {
    var rest := Insert(cmp, x, t);
    InsertBehind(cmp, x, h, t);
    TiedCons(cmp, h, t, y);
    TiedCons(cmp, h, rest, y);
    if cmp(h, y) == 0 {
      assert [h] + (Tied(cmp, t, y) + Own(cmp, x, y)) == ([h] + Tied(cmp, t, y)) + Own(cmp, x, y);
    } else {
      assert Own(cmp, h, y) == [];
      assert [] + Tied(cmp, rest, y) == Tied(cmp, rest, y);
      assert [] + Tied(cmp, t, y) == Tied(cmp, t, y);
    }
  }

  /** Stability: each tie class keeps its original relative order. */
  lemma {:induction false} SortStable<T(!new)>(cmp: (T, T) -> int, s: seq<T>, y: T)
    requires TotalPreorder(cmp)
    ensures Tied(cmp, Sort(cmp, s), y) == Tied(cmp, s, y)
  {
    if |s| > 0 {
      var prefix, last := s[..|s| - 1], s[|s| - 1];
      SortStable(cmp, prefix, y);
      SortSorted(cmp, prefix);
      InsertTied(cmp, last, Sort(cmp, prefix), y);
      TiedSnoc(cmp, prefix, last, y);
      assert prefix + [last] == s;
    }
  }
}
