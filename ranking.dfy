/**
 * The pure part of `getRecentlyFetched` (backend service/ArticleService.java): the 24-hour
 * window on the fetch instant and the comparator handed to `List.sort`, with the stable sort
 * that `List.sort` performs.
 */
module Ranking {
  import opened Dto
  import opened StableSort

  /** `minusHours(24)`, in seconds. */
  const DaySeconds: int := 24 * 60 * 60

  /** The filter: fetched strictly after `now` minus 24 hours, compared in epoch seconds. */
  predicate FetchedWithinDay(a: ArticleDto, now: int)
  {
    a.timeFetched > now - DaySeconds
  }

  /** The filter applied to a list, in order. */
  function FilterRecent(s: seq<ArticleDto>, now: int): (r: seq<ArticleDto>)
    ensures |r| <= |s|
    ensures forall x {:trigger multiset(r)[x]} :: multiset(r)[x] == if FetchedWithinDay(x, now) then multiset(s)[x] else 0
    ensures forall x :: x in r <==> x in s && FetchedWithinDay(x, now)
  {
    if |s| == 0 then []
    else
      var rest := FilterRecent(s[..|s| - 1], now);
      assert s == s[..|s| - 1] + [s[|s| - 1]];
      if FetchedWithinDay(s[|s| - 1], now) then rest + [s[|s| - 1]] else rest
  }

  /**
   * Taking the window and taking a tie class commute: the recent members of a tie class are
   * the members of the recent list's tie class, in the same order.
   */
  lemma {:induction false} FilterRecentTied(s: seq<ArticleDto>, now: int, y: ArticleDto)
    ensures Tied(Compare, FilterRecent(s, now), y) == FilterRecent(Tied(Compare, s, y), now)
  {
    if |s| > 0 {
      var init, x := s[..|s| - 1], s[|s| - 1];
      assert s == init + [x];
      FilterRecentTied(init, now, y);
      TiedSnoc(Compare, init, x, y);
      var t := Tied(Compare, init, y);
      if FetchedWithinDay(x, now) {
        TiedSnoc(Compare, FilterRecent(init, now), x, y);
      }
      if Compare(x, y) == 0 {
        assert (t + [x])[..|t + [x]| - 1] == t;
      } else {
        assert t + [] == t;
      }
    }
  }

  /** `OffsetDateTime.compareTo` on instants: the sign of the difference. */
  function CompareInstants(x: int, y: int): (c: int)
    ensures c < 0 <==> x < y
    ensures c == 0 <==> x == y
    ensures -1 <= c <= 1
  {
    if x < y then -1 else if x > y then 1 else 0
  }

  /**
   * The three-branch comparator: articles with a publication time first, newest published
   * first; those without one after them, newest fetched first.
   */
  function Compare(a1: ArticleDto, a2: ArticleDto): (c: int)
    ensures -1 <= c <= 1
    ensures a1.timePublished.Some? && a2.timePublished.None? ==> c < 0
    ensures a1.timePublished.None? && a2.timePublished.Some? ==> c > 0
    ensures a1.timePublished.Some? && a2.timePublished.Some? ==>
      (c < 0 <==> a1.timePublished.value > a2.timePublished.value) &&
      (c == 0 <==> a1.timePublished.value == a2.timePublished.value)
    ensures a1.timePublished.None? && a2.timePublished.None? ==>
      (c < 0 <==> a1.timeFetched > a2.timeFetched) && (c == 0 <==> a1.timeFetched == a2.timeFetched)
  {
    if a1.timePublished.None? && a2.timePublished.None? then CompareInstants(a2.timeFetched, a1.timeFetched)
    else if a1.timePublished.None? then 1
    else if a2.timePublished.None? then -1
    else CompareInstants(a2.timePublished.value, a1.timePublished.value)
  }

  /** An independent reading of the order: a sort key compared lexicographically. */
  function Key(a: ArticleDto): (int, int)
  {
    if a.timePublished.Some? then (0, -a.timePublished.value) else (1, -a.timeFetched)
  }

  predicate KeyBefore(k1: (int, int), k2: (int, int))
  {
    k1.0 < k2.0 || (k1.0 == k2.0 && k1.1 < k2.1)
  }

  /** The comparator orders by the key: negative, zero and positive mean before, tied and after. */
  lemma CompareIsKeyOrder(a1: ArticleDto, a2: ArticleDto)
    ensures Compare(a1, a2) < 0 <==> KeyBefore(Key(a1), Key(a2))
    ensures Compare(a1, a2) == 0 <==> Key(a1) == Key(a2)
    ensures Compare(a1, a2) > 0 <==> KeyBefore(Key(a2), Key(a1))
  {
  }

  lemma CompareFlip(a: ArticleDto, b: ArticleDto)
    ensures Compare(a, b) == -Compare(b, a)
  {
  }

  lemma CompareChain(a: ArticleDto, b: ArticleDto, c: ArticleDto)
    requires Compare(a, b) <= 0 && Compare(b, c) <= 0
    ensures Compare(a, c) <= 0
    ensures Compare(a, b) < 0 ==> Compare(a, c) < 0
  {
    CompareIsKeyOrder(a, b);
    CompareIsKeyOrder(b, c);
    CompareIsKeyOrder(a, c);
  }

  /** The comparator meets the contract `sort` relies on. */
  lemma CompareIsTotalPreorder()
    ensures TotalPreorder(Compare)
  {
    forall a, b, c | Compare(a, b) <= 0 && Compare(b, c) <= 0 ensures Compare(a, c) <= 0 {
      CompareChain(a, b, c);
    }
  }

  /** The stable sort `List.sort` performs with this comparator. */
  function SortArticles(s: seq<ArticleDto>): (r: seq<ArticleDto>)
    ensures |r| == |s|
    ensures multiset(r) == multiset(s)
  {
    SortPermutes(Compare, s);
    Sort(Compare, s)
  }

  /** What comparator order means in terms of the fields. */
  lemma SortedMeaning(s: seq<ArticleDto>, i: int, j: int)
    requires Sorted(Compare, s) && 0 <= i < j < |s|
    ensures s[i].timePublished.None? ==> s[j].timePublished.None?
    ensures s[i].timePublished.Some? && s[j].timePublished.Some? ==> s[i].timePublished.value >= s[j].timePublished.value
    ensures s[i].timePublished.None? && s[j].timePublished.None? ==> s[i].timeFetched >= s[j].timeFetched
  {
    assert Compare(s[i], s[j]) <= 0;
  }

  /** Lists with the same multiset have the same members. */
  lemma SameMembers(r: seq<ArticleDto>, s: seq<ArticleDto>)
    requires multiset(r) == multiset(s)
    ensures forall x :: x in r <==> x in s
  {
    forall x ensures x in r <==> x in s {
      assert x in r <==> x in multiset(r);
      assert x in s <==> x in multiset(s);
    }
  }

  /** The recent list: the window, then the stable sort. */
  function RecentlyFetched(s: seq<ArticleDto>, now: int): (r: seq<ArticleDto>)
    ensures Sorted(Compare, r)
    ensures forall x :: x in r <==> x in s && FetchedWithinDay(x, now)
    ensures forall x {:trigger multiset(r)[x]} :: multiset(r)[x] == if FetchedWithinDay(x, now) then multiset(s)[x] else 0
    ensures forall y :: Tied(Compare, r, y) == Tied(Compare, FilterRecent(s, now), y)
    ensures forall y :: Tied(Compare, r, y) == FilterRecent(Tied(Compare, s, y), now)
  {
    var recent := FilterRecent(s, now);
    forall y ensures Tied(Compare, recent, y) == FilterRecent(Tied(Compare, s, y), now) {
      FilterRecentTied(s, now, y);
    }
    CompareIsTotalPreorder();
    SortSorted(Compare, recent);
    forall y ensures Tied(Compare, SortArticles(recent), y) == Tied(Compare, recent, y) {
      SortStable(Compare, recent, y);
    }
    SameMembers(SortArticles(recent), recent);
    SortArticles(recent)
  }
}
