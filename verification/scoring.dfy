/**
 `scoreRecipe` and the percentage computed from it. Each required
 ingredient is put into exactly one bucket by the first-match-wins chain
 exact -> similar -> substituted -> unmet; the recipe's score is the
 weighted number of satisfied ingredients (weights 1.0, 0.9, 0.7) over the
 number required (at least 1).

 Scores are kept exact: `Credit` counts tenths of an ingredient
 (10 per exact, 9 per similar, 7 per substituted ingredient), so the
 source's `score * 100` is `10 * Credit / totalNeeded`.
 */
module Scoring {
  import opened Wrappers
  import opened Text
  import opened Tables
  import opened Recipes

  /** The tagged outcome of the matching chain for one required ingredient. */
  datatype Bucket = Exact | Similar | Substituted(substitute: string) | Unmet

  predicate IsExact(b: Bucket) { b.Exact? }
  predicate IsSimilar(b: Bucket) { b.Similar? }
  predicate IsSubstituted(b: Bucket) { b.Substituted? }
  predicate IsUnmet(b: Bucket) { b.Unmet? }

  /** Some member of the similarity group found for `ing` is available. */
  predicate SimilarAvailable(t: Tables, available: seq<string>, ing: string) {
    AnyAvailable(FindSimilar(t.similar, ing), available)
  }

  /**
   The bucket of one (normalised) required ingredient against the
   (normalised) available list.
   */
  function Classify(t: Tables, available: seq<string>, ing: string): (b: Bucket)
    // exact beats everything: an available ingredient is never credited otherwise
    ensures b.Exact? <==> ing in available
    // similarity beats substitution
    ensures b.Similar? <==> ing !in available && SimilarAvailable(t, available, ing)
    // similarity needs a group: another member of ing's first group is available
    ensures b.Similar? ==>
      && FirstGroup(t.similar, ing).Some?
      && exists s :: s != ing && s in available && InGroup(t.similar[FirstGroup(t.similar, ing).value], s)
    // substitution is tried last, and credits a table candidate that is available
    ensures b.Substituted? <==>
      ing !in available && !SimilarAvailable(t, available, ing) && SubstituteFor(t.substitutions, ing, available).Some?
    ensures b.Substituted? ==>
      && SubstituteFor(t.substitutions, ing, available) == Some(b.substitute)
      && b.substitute != "" && Present(b.substitute, available)
      && exists e :: e in t.substitutions && e.key == ing && b.substitute in e.values
  {
    if ing in available then Exact
    else if SimilarAvailable(t, available, ing) then
      var g := FindSimilar(t.similar, ing);
      var s :| s in g && s in available;
      assert s != ing;
      Similar
    else match SubstituteFor(t.substitutions, ing, available)
      case Some(s) => Substituted(s)
      case None => Unmet
  }

  /** Credit for one bucket, in tenths of an ingredient. */
  function Weight(b: Bucket): nat {
    match b
    case Exact => 10
    case Similar => 9
    case Substituted(_) => 7
    case Unmet => 0
  }

  function Buckets(t: Tables, available: seq<string>, req: seq<string>): (bs: seq<Bucket>)
    ensures |bs| == |req|
    ensures forall i :: 0 <= i < |req| ==> bs[i] == Classify(t, available, req[i])
  {
    seq(|req|, i requires 0 <= i < |req| => Classify(t, available, req[i]))
  }

  /** The buckets of a prefix are the prefix of the buckets. */
  lemma BucketsPrefix(t: Tables, available: seq<string>, req: seq<string>, n: nat)
    requires n <= |req|
    ensures Buckets(t, available, req)[..n] == Buckets(t, available, req[..n])
  {
  }

  /** The number of buckets satisfying `p`. */
  function Count(bs: seq<Bucket>, p: Bucket -> bool): nat {
    if |bs| == 0 then 0
    else Count(bs[..|bs| - 1], p) + (if p(bs[|bs| - 1]) then 1 else 0)
  }

  /** The sum of the buckets' weights. */
  function Credit(bs: seq<Bucket>): nat {
    if |bs| == 0 then 0
    else Credit(bs[..|bs| - 1]) + Weight(bs[|bs| - 1])
  }

  /** The `{original, substitute}` pairs of the substituted ingredients, in list order. */
  function Details(req: seq<string>, bs: seq<Bucket>): seq<SubstitutionDetail>
    requires |req| == |bs|
  {
    if |bs| == 0 then []
    else
      var n := |bs| - 1;
      Details(req[..n], bs[..n])
        + (if bs[n].Substituted? then [SubstitutionDetail(req[n], bs[n].substitute)] else [])
  }

  /** Every ingredient is in exactly one bucket. */
  lemma {:induction false} BucketsPartition(bs: seq<Bucket>)
    ensures Count(bs, IsExact) + Count(bs, IsSimilar) + Count(bs, IsSubstituted) + Count(bs, IsUnmet) == |bs|
  {
    if |bs| > 0 {
      BucketsPartition(bs[..|bs| - 1]);
    }
  }

  /** The credit is the weighted sum of the bucket counts. */
  lemma {:induction false} CreditIsWeightedCount(bs: seq<Bucket>)
    ensures Credit(bs) == 10 * Count(bs, IsExact) + 9 * Count(bs, IsSimilar) + 7 * Count(bs, IsSubstituted)
  {
    if |bs| > 0 {
      CreditIsWeightedCount(bs[..|bs| - 1]);
    }
  }

  /** One detail per substituted ingredient. */
  lemma {:induction false} DetailsCount(req: seq<string>, bs: seq<Bucket>)
    requires |req| == |bs|
    ensures |Details(req, bs)| == Count(bs, IsSubstituted)
  {
    if |bs| > 0 {
      DetailsCount(req[..|bs| - 1], bs[..|bs| - 1]);
    }
  }

  /**
   The details keep the ingredient order: the details of a list split in
   two are the details of the first part followed by those of the second.
   */
  lemma {:induction false} DetailsInOrder(req1: seq<string>, bs1: seq<Bucket>, req2: seq<string>, bs2: seq<Bucket>)
    requires |req1| == |bs1| && |req2| == |bs2|
    ensures Details(req1 + req2, bs1 + bs2) == Details(req1, bs1) + Details(req2, bs2)
    decreases |bs2|
  {
    if |bs2| > 0 {
      var n := |bs2| - 1;
      assert (req1 + req2)[..|req1| + n] == req1 + req2[..n];
      assert (bs1 + bs2)[..|bs1| + n] == bs1 + bs2[..n];
      DetailsInOrder(req1, bs1, req2[..n], bs2[..n]);
    } else {
      assert req1 + req2 == req1 && bs1 + bs2 == bs1;
    }
  }

  /** Each detail names a required ingredient and the substitute its bucket credits. */
  lemma {:induction false} DetailsAreSubstitutions(req: seq<string>, bs: seq<Bucket>)
    requires |req| == |bs|
    ensures forall d :: d in Details(req, bs) ==>
      exists i :: 0 <= i < |req| && req[i] == d.original && bs[i] == Substituted(d.substitute)
  {
    if |bs| > 0 {
      var n := |bs| - 1;
      DetailsAreSubstitutions(req[..n], bs[..n]);
      forall d | d in Details(req, bs)
        ensures exists i :: 0 <= i < |req| && req[i] == d.original && bs[i] == Substituted(d.substitute)
      {
        if d in Details(req[..n], bs[..n]) {
          var i :| 0 <= i < n && req[..n][i] == d.original && bs[..n][i] == Substituted(d.substitute);
          assert req[i] == d.original && bs[i] == Substituted(d.substitute);
        } else {
          assert req[n] == d.original && bs[n] == Substituted(d.substitute);
        }
      }
    }
  }

  /** The result of `scoreRecipe` (its `score` is `Credit / (10 * totalNeeded)`). */
  datatype Score = Score(
    have: nat,
    similar: nat,
    possibleWithSub: nat,
    totalNeeded: nat,
    details: seq<SubstitutionDetail>)
  {
    function Credit(): nat {
      10 * have + 9 * similar + 7 * possibleWithSub
    }
  }

  /**
   The reference definition of `scoreRecipe` over normalised inputs:
   bucket every required ingredient, then count.
   */
  function ScoreOf(t: Tables, available: seq<string>, req: seq<string>): (sc: Score)
    ensures sc.have + sc.similar + sc.possibleWithSub <= |req|
    ensures sc.totalNeeded >= 1
    ensures |req| > 0 ==> sc.totalNeeded == |req|
    ensures |sc.details| == sc.possibleWithSub
    ensures sc.Credit() <= 10 * sc.totalNeeded
  {
    var bs := Buckets(t, available, req);
    BucketsPartition(bs);
    DetailsCount(req, bs);
    Score(
      Count(bs, IsExact),
      Count(bs, IsSimilar),
      Count(bs, IsSubstituted),
      if |req| == 0 then 1 else |req|,
      Details(req, bs))
  }

  /** The counts and details of a prefix one ingredient longer. */
  lemma CountStep(req: seq<string>, bs: seq<Bucket>, i: nat)
    requires |req| == |bs| && i < |bs|
    ensures Count(bs[..i + 1], IsExact) == Count(bs[..i], IsExact) + (if bs[i].Exact? then 1 else 0)
    ensures Count(bs[..i + 1], IsSimilar) == Count(bs[..i], IsSimilar) + (if bs[i].Similar? then 1 else 0)
    ensures Count(bs[..i + 1], IsSubstituted) == Count(bs[..i], IsSubstituted) + (if bs[i].Substituted? then 1 else 0)
    ensures Details(req[..i + 1], bs[..i + 1]) ==
      Details(req[..i], bs[..i]) + (if bs[i].Substituted? then [SubstitutionDetail(req[i], bs[i].substitute)] else [])
  {
    assert bs[..i + 1][..i] == bs[..i];
    assert req[..i + 1][..i] == req[..i];
  }

  /**
   Scoring is incremental: one more required ingredient adds one to the
   count of its bucket and, when it is substituted, appends its detail.
   */
  lemma ScoreOfSnoc(t: Tables, available: seq<string>, req: seq<string>, ing: string)
    ensures var before := ScoreOf(t, available, req);
      var after := ScoreOf(t, available, req + [ing]);
      var b := Classify(t, available, ing);
      && after.have == before.have + (if b.Exact? then 1 else 0)
      && after.similar == before.similar + (if b.Similar? then 1 else 0)
      && after.possibleWithSub == before.possibleWithSub + (if b.Substituted? then 1 else 0)
      && after.totalNeeded == |req| + 1
      && after.details == before.details + (if b.Substituted? then [SubstitutionDetail(ing, b.substitute)] else [])
  {
    var req' := req + [ing];
    var bs' := Buckets(t, available, req');
    BucketsPrefix(t, available, req', |req|);
    assert req'[..|req|] == req;
    CountStep(req', bs', |req|);
    assert bs'[..|req| + 1] == bs' && req'[..|req| + 1] == req';
    assert bs'[|req|] == Classify(t, available, ing);
  }

  /**
   The body of `scoreRecipe`'s loop for one ingredient, step by step as
   the source takes it: exact match, then any available member of its
   similarity group, then the first available substitute. The first
   matching step decides, and a falsy key or substitute earns nothing.
   */
  method ClassifyStep(t: Tables, available: seq<string>, ing: string) returns (b: Bucket)
    ensures b.Exact? <==> ing in available
    ensures b.Similar? <==> ing !in available && AnyAvailable(FindSimilar(t.similar, ing), available)
    ensures b.Substituted? ==>
      && ing !in available && !AnyAvailable(FindSimilar(t.similar, ing), available)
      && IsFirstSubstitute(t.substitutions, ing, available, b.substitute)
    ensures b.Unmet? <==>
      && ing !in available && !AnyAvailable(FindSimilar(t.similar, ing), available)
      && !HasFirstSubstitute(t.substitutions, ing, available)
    // the reference classification, on which the counters are proved
    ensures b == Classify(t, available, ing)
  {
    if ing in available {
      return Exact;
    }
    var similars := FindSimilar(t.similar, ing);
    if exists s :: s in similars && s in available {
      assert SimilarAvailable(t, available, ing);
      return Similar;
    }
    assert !SimilarAvailable(t, available, ing);
    var foundSubKey := LookupKey(t.substitutions, ing);
    if foundSubKey.Some? && t.substitutions[foundSubKey.value].key != "" {
      var possibleSubs := t.substitutions[foundSubKey.value].values;
      var availableSub := FirstAvailable(possibleSubs, available);
      if availableSub.Some? && possibleSubs[availableSub.value] != "" {
        b := Substituted(possibleSubs[availableSub.value]);
        assert SubstituteFor(t.substitutions, ing, available) == Some(b.substitute);
        SubstituteForIsFirst(t.substitutions, ing, available, b.substitute);
        return;
      }
    }
    assert SubstituteFor(t.substitutions, ing, available).None?;
    NoneIsNoFirst(t.substitutions, ing, available);
    return Unmet;
  }

  /** `scoreRecipe`'s loop: counters updated ingredient by ingredient. */
  method ScoreRecipe(t: Tables, available: seq<string>, req: seq<string>) returns (sc: Score)
    ensures sc == ScoreOf(t, available, req)
  {
    ghost var bs := Buckets(t, available, req);
    var have, similar, possibleWithSub := 0, 0, 0;
    var details := [];
    for i := 0 to |req|
      invariant have == Count(bs[..i], IsExact)
      invariant similar == Count(bs[..i], IsSimilar)
      invariant possibleWithSub == Count(bs[..i], IsSubstituted)
      invariant details == Details(req[..i], bs[..i])
    {
      CountStep(req, bs, i);
      var b := Classify(t, available, req[i]);
      match b
      case Exact => have := have + 1;
      case Similar => similar := similar + 1;
      case Substituted(s) =>
        possibleWithSub := possibleWithSub + 1;
        details := details + [SubstitutionDetail(req[i], s)];
      case Unmet =>
    }
    assert bs[..|req|] == bs;
    assert req[..|req|] == req;
    sc := Score(have, similar, possibleWithSub, if |req| == 0 then 1 else |req|, details);
  }

  /**
   `Math.round(score * 100)` for `score = credit / (10 * total)`, in
   integers: the nearest integer to `10 * credit / total`, halves rounded up.
   */
  function MatchScore(credit: nat, total: nat): (r: int)
    requires total > 0
    ensures 2 * total * r - total <= 20 * credit < 2 * total * r + total
  {
    (20 * credit + total) / (2 * total)
  }

  /** Cancelling a positive factor from a strict inequality. */
  lemma CancelLess(a: int, b: int, k: int)
    requires k > 0
    requires k * a < k * b
    ensures a < b
  {
    assert k * b - k * a == k * (b - a);
  }

  /** A credit of at most one per required ingredient gives a percentage. */
  lemma MatchScoreBounds(credit: nat, total: nat)
    requires total > 0
    requires credit <= 10 * total
    ensures 0 <= MatchScore(credit, total) <= 100
    ensures credit == 10 * total ==> MatchScore(credit, total) == 100
    ensures credit == 0 ==> MatchScore(credit, total) == 0
  {
    var r := MatchScore(credit, total);
    var k := 2 * total;
    assert k * r - total <= 20 * credit < k * r + total;
    assert k * 101 == 202 * total && k * -1 == -2 * total;
    CancelLess(r, 101, k);
    CancelLess(-1, r, k);
    if credit == 10 * total {
      assert k * 99 == 198 * total;
      CancelLess(99, r, k);
    }
    if credit == 0 {
      assert k * 1 == 2 * total;
      CancelLess(r, 1, k);
    }
  }

  /** Rounding is monotone in the credit. */
  lemma MatchScoreMonotone(c1: nat, c2: nat, total: nat)
    requires total > 0
    requires c1 <= c2
    ensures MatchScore(c1, total) <= MatchScore(c2, total)
  {
    var r1, r2 := MatchScore(c1, total), MatchScore(c2, total);
    var k := 2 * total;
    assert k * r1 - total <= 20 * c1 <= 20 * c2 < k * r2 + total;
    assert k * r1 < k * (r2 + 1);
    CancelLess(r1, r2 + 1, k);
  }

  /**
   The recipe's percentage, `Math.round(score * 100)`: the integer nearest
   to `10 * Credit / totalNeeded`, halves rounded up, and a percentage
   whenever the credit is at most one per required ingredient.
   */
  function Percent(sc: Score): (p: int)
    requires sc.totalNeeded > 0
    ensures 2 * sc.totalNeeded * p - sc.totalNeeded <= 20 * sc.Credit() < 2 * sc.totalNeeded * p + sc.totalNeeded
    ensures sc.Credit() <= 10 * sc.totalNeeded ==> 0 <= p <= 100
  {
    if sc.Credit() <= 10 * sc.totalNeeded then
      MatchScoreBounds(sc.Credit(), sc.totalNeeded);
      MatchScore(sc.Credit(), sc.totalNeeded)
    else
      MatchScore(sc.Credit(), sc.totalNeeded)
  }

  /** Every recipe scores between 0 and 100. */
  lemma PercentBounds(t: Tables, available: seq<string>, req: seq<string>)
    ensures 0 <= Percent(ScoreOf(t, available, req)) <= 100
  {
    var sc := ScoreOf(t, available, req);
    MatchScoreBounds(sc.Credit(), sc.totalNeeded);
  }

  /** A recipe with no required ingredient divides by 1 and scores 0. */
  lemma EmptyRecipeScoresZero(t: Tables, available: seq<string>)
    ensures ScoreOf(t, available, []).totalNeeded == 1
    ensures Percent(ScoreOf(t, available, [])) == 0
  {
  }

  lemma {:induction false} CountAll(bs: seq<Bucket>, p: Bucket -> bool)
    requires forall i :: 0 <= i < |bs| ==> p(bs[i])
    ensures Count(bs, p) == |bs|
  {
    if |bs| > 0 {
      CountAll(bs[..|bs| - 1], p);
    }
  }

  /** A recipe whose every ingredient is available scores 100. */
  lemma AllExactScoresHundred(t: Tables, available: seq<string>, req: seq<string>)
    requires |req| > 0
    requires forall i :: 0 <= i < |req| ==> req[i] in available
    ensures Percent(ScoreOf(t, available, req)) == 100
  {
    var bs := Buckets(t, available, req);
    CountAll(bs, IsExact);
    BucketsPartition(bs);
    MatchScoreBounds(ScoreOf(t, available, req).Credit(), |req|);
  }

  /** With nothing available, no ingredient is exact, similar or substituted. */
  lemma NothingAvailableUnmet(t: Tables, ing: string)
    ensures Classify(t, [], ing) == Unmet
  {
  }

  lemma {:induction false} CountNone(bs: seq<Bucket>, p: Bucket -> bool)
    requires forall i :: 0 <= i < |bs| ==> !p(bs[i])
    ensures Count(bs, p) == 0
  {
    if |bs| > 0 {
      CountNone(bs[..|bs| - 1], p);
    }
  }

  /** With nothing available every recipe has no credited ingredient and scores 0. */
  lemma NothingAvailableScoresZero(t: Tables, req: seq<string>)
    ensures ScoreOf(t, [], req).have == 0
    ensures ScoreOf(t, [], req).similar == 0
    ensures ScoreOf(t, [], req).possibleWithSub == 0
    ensures ScoreOf(t, [], req).details == []
    ensures Percent(ScoreOf(t, [], req)) == 0
  {
    var bs := Buckets(t, [], req);
    forall i | 0 <= i < |bs|
      ensures bs[i] == Unmet
    {
      NothingAvailableUnmet(t, req[i]);
    }
    CountNone(bs, IsExact);
    CountNone(bs, IsSimilar);
    CountNone(bs, IsSubstituted);
    var sc := ScoreOf(t, [], req);
    MatchScoreBounds(sc.Credit(), sc.totalNeeded);
  }

  /** With more available ingredients, an ingredient's bucket never loses weight. */
  lemma ClassifyMonotone(t: Tables, available: seq<string>, more: seq<string>, ing: string)
    requires WellFormed(t)
    requires forall x :: x in available ==> x in more
    ensures Weight(Classify(t, available, ing)) <= Weight(Classify(t, more, ing))
  {
    var b := Classify(t, available, ing);
    if b.Similar? {
      var s :| s in FindSimilar(t.similar, ing) && s in available;
      assert s in more;
    } else if b.Substituted? {
      SubstituteForMonotone(t.substitutions, ing, available, more);
      if !Classify(t, more, ing).Exact? && !Classify(t, more, ing).Similar? {
        assert Classify(t, more, ing).Substituted?;
      }
    }
  }

  lemma {:induction false} CreditMonotone(t: Tables, available: seq<string>, more: seq<string>, req: seq<string>)
    requires WellFormed(t)
    requires forall x :: x in available ==> x in more
    ensures Credit(Buckets(t, available, req)) <= Credit(Buckets(t, more, req))
  {
    if |req| > 0 {
      var n := |req| - 1;
      BucketsPrefix(t, available, req, n);
      BucketsPrefix(t, more, req, n);
      CreditMonotone(t, available, more, req[..n]);
      ClassifyMonotone(t, available, more, req[n]);
    }
  }

  /** Making more ingredients available never lowers a recipe's percentage. */
  lemma PercentMonotone(t: Tables, available: seq<string>, more: seq<string>, req: seq<string>)
    requires WellFormed(t)
    requires forall x :: x in available ==> x in more
    ensures Percent(ScoreOf(t, available, req)) <= Percent(ScoreOf(t, more, req))
  {
    CreditMonotone(t, available, more, req);
    CreditIsWeightedCount(Buckets(t, available, req));
    CreditIsWeightedCount(Buckets(t, more, req));
    var total := ScoreOf(t, available, req).totalNeeded;
    MatchScoreMonotone(ScoreOf(t, available, req).Credit(), ScoreOf(t, more, req).Credit(), total);
  }

}
