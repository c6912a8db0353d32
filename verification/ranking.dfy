/**
 The ranking of `matchRecipes`: `scored.sort(comparator)` with a
 comparator on match score (descending), rating (descending) and cooking
 time (ascending). `Array.prototype.sort` is stable, so the ranking is
 modelled by a stable insertion sort.

 The rating of a recipe comes from `getRating`, which reads browser
 storage; here it is an injected function from recipe id to rating.
 */
module Ranking {
  import opened Recipes

  /**
   The comparator passed to `sort`: negative exactly when `a` ranks
   strictly ahead of `b`, zero exactly when they tie on all three keys.
   */
  function Compare(rating: string -> int, a: MatchResult, b: MatchResult): (c: int)
    ensures c < 0 <==> Ahead(KeyOf(rating, a), KeyOf(rating, b))
    ensures c == 0 <==> KeyOf(rating, a) == KeyOf(rating, b)
    ensures c > 0 <==> Ahead(KeyOf(rating, b), KeyOf(rating, a))
  {
    if b.matchScore != a.matchScore then b.matchScore - a.matchScore
    else if rating(b.recipe.id) != rating(a.recipe.id) then rating(b.recipe.id) - rating(a.recipe.id)
    else a.recipe.time - b.recipe.time
  }

  /** What the comparator looks at. */
  datatype RankKey = RankKey(score: int, rating: int, time: int)

  function KeyOf(rating: string -> int, m: MatchResult): RankKey {
    RankKey(m.matchScore, rating(m.recipe.id), m.recipe.time)
  }

  /** Strict rank order: higher score first, then higher rating, then shorter time. */
  predicate Ahead(k1: RankKey, k2: RankKey) {
    || k1.score > k2.score
    || (k1.score == k2.score && k1.rating > k2.rating)
    || (k1.score == k2.score && k1.rating == k2.rating && k1.time < k2.time)
  }

  /** The comparator is consistent: antisymmetric, and "not after" is transitive. */
  lemma CompareConsistent(rating: string -> int, a: MatchResult, b: MatchResult, c: MatchResult)
    ensures Compare(rating, a, b) == -Compare(rating, b, a)
    ensures Compare(rating, a, b) <= 0 && Compare(rating, b, c) <= 0 ==> Compare(rating, a, c) <= 0
  {
  }

  /** No later element ranks strictly ahead of an earlier one. */
  predicate Sorted(rating: string -> int, s: seq<MatchResult>) {
    forall i, j :: 0 <= i < j < |s| ==> Compare(rating, s[i], s[j]) <= 0
  }

  /** Insert `x` before the first element it does not rank behind. */
  function Insert(rating: string -> int, x: MatchResult, s: seq<MatchResult>): (r: seq<MatchResult>)
    ensures multiset(r) == multiset(s) + multiset{x}
    ensures |r| == |s| + 1
  {
    if |s| == 0 then [x]
    else if Compare(rating, x, s[0]) <= 0 then [x] + s
    else
      assert s == [s[0]] + s[1..];
      [s[0]] + Insert(rating, x, s[1..])
  }

  /** An element not behind any element of a sorted sequence can go in front of it. */
  lemma ConsSorted(rating: string -> int, y: MatchResult, r: seq<MatchResult>)
    requires Sorted(rating, r)
    requires forall k :: 0 <= k < |r| ==> Compare(rating, y, r[k]) <= 0
    ensures Sorted(rating, [y] + r)
  {
    var yr := [y] + r;
    forall i, j | 0 <= i < j < |yr|
      ensures Compare(rating, yr[i], yr[j]) <= 0
    {
      assert yr[j] == r[j - 1];
      if i > 0 {
        assert yr[i] == r[i - 1];
      }
    }
  }

  /** Inserting into a sorted sequence keeps it sorted. */
  lemma {:induction false} InsertSorted(rating: string -> int, x: MatchResult, s: seq<MatchResult>)
    requires Sorted(rating, s)
    ensures Sorted(rating, Insert(rating, x, s))
  {
    if |s| == 0 {
    } else if Compare(rating, x, s[0]) <= 0 {
      forall k | 0 <= k < |s|
        ensures Compare(rating, x, s[k]) <= 0
      {
        CompareConsistent(rating, x, s[0], s[k]);
      }
      ConsSorted(rating, x, s);
    } else {
      var rest := Insert(rating, x, s[1..]);
      assert Sorted(rating, s[1..]);
      InsertSorted(rating, x, s[1..]);
      forall k | 0 <= k < |rest|
        ensures Compare(rating, s[0], rest[k]) <= 0
      {
        var y := rest[k];
        assert y in multiset(rest);
        if y == x {
          CompareConsistent(rating, x, s[0], x);
        } else {
          assert y in multiset(s[1..]);
          var m :| 0 <= m < |s[1..]| && s[1..][m] == y;
          assert s[m + 1] == y;
        }
      }
      ConsSorted(rating, s[0], rest);
    }
  }

  /** Stable insertion sort by the comparator. */
  function Sort(rating: string -> int, s: seq<MatchResult>): (r: seq<MatchResult>)
    ensures multiset(r) == multiset(s)
    ensures |r| == |s|
  {
    if |s| == 0 then []
    else
      assert s == [s[0]] + s[1..];
      Insert(rating, s[0], Sort(rating, s[1..]))
  }

  lemma {:induction false} SortSorted(rating: string -> int, s: seq<MatchResult>)
    ensures Sorted(rating, Sort(rating, s))
  {
    if |s| > 0 {
      SortSorted(rating, s[1..]);
      InsertSorted(rating, s[0], Sort(rating, s[1..]));
    }
  }

  /** The elements of `s` whose key is `k`, in order. */
  function WithKey(rating: string -> int, s: seq<MatchResult>, k: RankKey): seq<MatchResult> {
    if |s| == 0 then []
    else (if KeyOf(rating, s[0]) == k then [s[0]] else []) + WithKey(rating, s[1..], k)
  }

  /** `[x]` when `x` has key `k`, otherwise nothing. */
  function IfKey(rating: string -> int, x: MatchResult, k: RankKey): seq<MatchResult> {
    if KeyOf(rating, x) == k then [x] else []
  }

  lemma WithKeyCons(rating: string -> int, y: MatchResult, t: seq<MatchResult>, k: RankKey)
    ensures WithKey(rating, [y] + t, k) == IfKey(rating, y, k) + WithKey(rating, t, k)
  {
    assert ([y] + t)[0] == y;
    assert ([y] + t)[1..] == t;
  }

  /** Two fronts of which one is empty can be swapped. */
  lemma SwapFront<T>(a: seq<T>, b: seq<T>, w: seq<T>)
    requires a == [] || b == []
    ensures a + (b + w) == b + (a + w)
  {
    if a == [] {
      assert a + (b + w) == b + w == b + (a + w);
    } else {
      assert a + (b + w) == a + w == b + (a + w);
    }
  }

  lemma {:induction false} InsertStable(rating: string -> int, x: MatchResult, s: seq<MatchResult>, k: RankKey)
    ensures WithKey(rating, Insert(rating, x, s), k) == IfKey(rating, x, k) + WithKey(rating, s, k)
  {
    if |s| == 0 {
      WithKeyCons(rating, x, [], k);
    } else if Compare(rating, x, s[0]) <= 0 {
      WithKeyCons(rating, x, s, k);
    } else {
      var rest := Insert(rating, x, s[1..]);
      InsertStable(rating, x, s[1..], k);
      CompareConsistent(rating, x, s[0], x);
      assert IfKey(rating, s[0], k) == [] || IfKey(rating, x, k) == [];
      SwapFront(IfKey(rating, s[0], k), IfKey(rating, x, k), WithKey(rating, s[1..], k));
      WithKeyCons(rating, s[0], rest, k);
      assert s == [s[0]] + s[1..];
      WithKeyCons(rating, s[0], s[1..], k);
    }
  }

  /**
   The sort is stable: for every key, the elements with that key appear
   in the sorted result in the same order as in the input.
   */
  lemma {:induction false} SortStable(rating: string -> int, s: seq<MatchResult>, k: RankKey)
    ensures WithKey(rating, Sort(rating, s), k) == WithKey(rating, s, k)
  {
    if |s| > 0 {
      SortStable(rating, s[1..], k);
      InsertStable(rating, s[0], Sort(rating, s[1..]), k);
    }
  }


  lemma {:induction false} WithKeyMember(rating: string -> int, s: seq<MatchResult>, k: RankKey, y: MatchResult)
    requires y in WithKey(rating, s, k)
    ensures exists j :: 0 <= j < |s| && s[j] == y && KeyOf(rating, y) == k
  {
    if |s| > 0 {
      WithKeyCons(rating, s[0], s[1..], k);
      assert s == [s[0]] + s[1..];
      if y !in IfKey(rating, s[0], k) {
        WithKeyMember(rating, s[1..], k, y);
        var j :| 0 <= j < |s[1..]| && s[1..][j] == y && KeyOf(rating, y) == k;
        assert s[j + 1] == y;
      }
    }
  }

  lemma WithKeyHead(rating: string -> int, s: seq<MatchResult>)
    requires |s| > 0
    ensures WithKey(rating, s, KeyOf(rating, s[0])) != []
  {
  }

  lemma PrefixCancel<T>(p: seq<T>, x: seq<T>, y: seq<T>)
    requires p + x == p + y
    ensures x == y
  {
    assert x == (p + x)[|p|..];
    assert y == (p + y)[|p|..];
  }

  /** In a sorted sequence, the head is not behind any element with key `k` present in it. */
  lemma HeadNotBehind(rating: string -> int, s: seq<MatchResult>, k: RankKey)
    requires Sorted(rating, s)
    requires |s| > 0 && |WithKey(rating, s, k)| > 0
    ensures !Ahead(k, KeyOf(rating, s[0]))
  {
    var y := WithKey(rating, s, k)[0];
    WithKeyMember(rating, s, k, y);
    var j :| 0 <= j < |s| && s[j] == y && KeyOf(rating, y) == k;
    if j > 0 {
      CompareConsistent(rating, s[0], y, y);
    }
  }

  /**
   A sorted sequence is determined by its per-key subsequences: two sorted
   sequences that agree on the elements of every key, in order, are equal.
   */
  lemma {:induction false} SortedStableUnique(rating: string -> int, a: seq<MatchResult>, b: seq<MatchResult>)
    requires Sorted(rating, a) && Sorted(rating, b)
    requires forall k :: WithKey(rating, a, k) == WithKey(rating, b, k)
    ensures a == b
    decreases |a| + |b|
  {
    if |a| == 0 && |b| == 0 {
    } else if |a| == 0 {
      WithKeyHead(rating, b);
    } else if |b| == 0 {
      WithKeyHead(rating, a);
    } else {
      var ka, kb := KeyOf(rating, a[0]), KeyOf(rating, b[0]);
      assert a == [a[0]] + a[1..];
      assert b == [b[0]] + b[1..];
      WithKeyCons(rating, a[0], a[1..], ka);
      WithKeyCons(rating, b[0], b[1..], kb);
      assert WithKey(rating, b, ka) == WithKey(rating, a, ka);
      assert WithKey(rating, a, kb) == WithKey(rating, b, kb);
      HeadNotBehind(rating, b, ka);
      HeadNotBehind(rating, a, kb);
      assert ka == kb;
      WithKeyCons(rating, b[0], b[1..], ka);
      assert IfKey(rating, a[0], ka) == [a[0]] && IfKey(rating, b[0], ka) == [b[0]];
      assert WithKey(rating, a, ka)[0] == a[0];
      assert WithKey(rating, b, ka)[0] == b[0];
      forall k
        ensures WithKey(rating, a[1..], k) == WithKey(rating, b[1..], k)
      {
        WithKeyCons(rating, a[0], a[1..], k);
        WithKeyCons(rating, b[0], b[1..], k);
        PrefixCancel(IfKey(rating, a[0], k), WithKey(rating, a[1..], k), WithKey(rating, b[1..], k));
      }
      SortedStableUnique(rating, a[1..], b[1..]);
    }
  }

  /**
   `Sort` is the stable sort: any sequence that is sorted and keeps the
   input order within every key is exactly `Sort`'s result.
   */
  lemma SortIsTheStableSort(rating: string -> int, s: seq<MatchResult>, t: seq<MatchResult>)
    requires Sorted(rating, t)
    requires forall k :: WithKey(rating, t, k) == WithKey(rating, s, k)
    ensures t == Sort(rating, s)
  {
    SortSorted(rating, s);
    forall k
      ensures WithKey(rating, t, k) == WithKey(rating, Sort(rating, s), k)
    {
      SortStable(rating, s, k);
    }
    SortedStableUnique(rating, t, Sort(rating, s));
  }

}
