/**
 `matchRecipes(availableIngredients, recipes, options)`: normalise the
 available ingredients, filter the catalog, score every kept recipe,
 rank the scored recipes and keep the first 20.
 */
module Matcher {
  import opened Wrappers
  import opened Text
  import opened Tables
  import opened Recipes
  import opened Scoring
  import opened Filtering
  import opened Ranking

  /** At most this many results are returned (lib/recipeMatcher.js:123). */
  const MaxResults: nat := 20

  function Min(a: nat, b: nat): nat {
    if a <= b then a else b
  }

  /** The `filtered.map` callback: the recipe, unchanged, with its score fields. */
  function Scored(t: Tables, available: seq<string>, r: Recipe): (m: MatchResult)
    ensures m.recipe == r
    ensures 0 <= m.matchScore <= 100
    ensures m.needed >= 1
    ensures r.ingredients != [] ==> m.needed == |r.ingredients|
    ensures r.ingredients == [] ==> m.needed == 1 && m.have == 0 && m.matchScore == 0
    ensures m.have + m.substitutionsSuggested <= m.needed
    ensures |m.substitutionDetails| == m.substitutionsSuggested
  {
    var req := NormalizeAll(r.ingredients);
    var sc := ScoreOf(t, available, req);
    PercentBounds(t, available, req);
    MatchResult(r, Percent(sc), sc.have, sc.totalNeeded, sc.possibleWithSub, sc.details)
  }

  function ScoreAll(t: Tables, available: seq<string>, rs: seq<Recipe>): (ms: seq<MatchResult>)
    ensures |ms| == |rs|
    ensures forall i :: 0 <= i < |rs| ==> ms[i] == Scored(t, available, rs[i])
  {
    seq(|rs|, i requires 0 <= i < |rs| => Scored(t, available, rs[i]))
  }

  lemma ScoredMember(t: Tables, available: seq<string>, rs: seq<Recipe>, m: MatchResult)
    requires m in ScoreAll(t, available, rs)
    ensures m.recipe in rs && m == Scored(t, available, m.recipe)
  {
    var i :| 0 <= i < |rs| && ScoreAll(t, available, rs)[i] == m;
  }

  lemma FilteredMember(rs: seq<Recipe>, o: Options, r: Recipe)
    requires r in FilterRecipes(rs, o)
    ensures r in rs && Keep(r, o)
  {
    assert r in multiset(FilterRecipes(rs, o));
  }

  lemma ScoredIn(t: Tables, available: seq<string>, rs: seq<Recipe>, r: Recipe)
    requires r in rs
    ensures Scored(t, available, r) in ScoreAll(t, available, rs)
  {
    var i :| 0 <= i < |rs| && rs[i] == r;
    assert ScoreAll(t, available, rs)[i] == Scored(t, available, r);
  }

  lemma FilteredKept(rs: seq<Recipe>, o: Options, r: Recipe)
    requires r in rs && Keep(r, o)
    ensures r in FilterRecipes(rs, o)
  {
    assert r in multiset(rs);
    assert r in multiset(FilterRecipes(rs, o));
  }

  /** A prefix of a sorted list holds `x` or only elements not behind `x`. */
  lemma PrefixOfSorted(rating: string -> int, ranked: seq<MatchResult>, n: nat, x: MatchResult)
    requires Sorted(rating, ranked) && n <= |ranked| && x in ranked
    ensures x in ranked[..n] || forall m :: m in ranked[..n] ==> Compare(rating, m, x) <= 0
  {
    var j :| 0 <= j < |ranked| && ranked[j] == x;
    if j >= n {
      forall m | m in ranked[..n]
        ensures Compare(rating, m, x) <= 0
      {
        var k :| 0 <= k < n && ranked[..n][k] == m;
      }
    } else {
      assert ranked[..n][j] == x;
    }
  }

  /** Every ranked result is the scoring of a catalog recipe that passes the filters. */
  lemma RankedFromCatalog(
    t: Tables, rating: string -> int, available: seq<string>,
    recipes: seq<Recipe>, options: Options, m: MatchResult)
    requires m in Sort(rating, ScoreAll(t, available, FilterRecipes(recipes, options)))
    ensures m.recipe in recipes && Keep(m.recipe, options) && m == Scored(t, available, m.recipe)
  {
    var scored := ScoreAll(t, available, FilterRecipes(recipes, options));
    assert m in multiset(Sort(rating, scored));
    assert m in multiset(scored);
    ScoredMember(t, available, FilterRecipes(recipes, options), m);
    FilteredMember(recipes, options, m.recipe);
  }

  /**
   The matcher. The rating used to break ties is injected; the source
   reads it from browser storage and gets 0 on the server.
   */
  function MatchRecipes(
    t: Tables,
    rating: string -> int,
    availableIngredients: seq<string>,
    recipes: seq<Recipe>,
    options: Options): (out: seq<MatchResult>)
    ensures |out| == Min(MaxResults, |FilterRecipes(recipes, options)|)
    ensures forall m :: m in out ==> m.recipe in recipes && Keep(m.recipe, options)
    ensures forall m :: m in out ==> m == Scored(t, NormalizeAll(availableIngredients), m.recipe)
    ensures Sorted(rating, out)
  {
    var available := NormalizeAll(availableIngredients);
    var filtered := FilterRecipes(recipes, options);
    var scored := ScoreAll(t, available, filtered);
    var ranked := Sort(rating, scored);
    SortSorted(rating, scored);
    var out := ranked[..Min(MaxResults, |ranked|)];
    forall m | m in out
      ensures m.recipe in recipes && Keep(m.recipe, options) && m == Scored(t, available, m.recipe)
    {
      RankedFromCatalog(t, rating, available, recipes, options, m);
    }
    out
  }

  /**
   Every returned recipe passes each of the three filters, stated on the
   raw options: a diet other than a falsy value or `'any'` must be among
   the recipe's normalised tags, a difficulty other than a falsy value or
   `'any'` must equal the recipe's after normalising, and a time limit
   must not be exceeded.
   */
  lemma OutputPassesFilters(
    t: Tables, rating: string -> int, availableIngredients: seq<string>,
    recipes: seq<Recipe>, options: Options, m: MatchResult)
    requires m in MatchRecipes(t, rating, availableIngredients, recipes, options)
    ensures options.diet.Some? && options.diet.value != "" && options.diet.value != "any" ==>
      Normalize(options.diet.value) in NormalizeAll(m.recipe.diet)
    ensures options.difficulty.Some? && options.difficulty.value != "" && options.difficulty.value != "any" ==>
      Normalize(m.recipe.difficulty) == Normalize(options.difficulty.value)
    ensures options.maxTime.Some? ==> m.recipe.time <= options.maxTime.value
  {
    assert Keep(m.recipe, options);
  }

  /**
   Only the best-ranked recipes are returned: a kept recipe left out of
   the result ranks no better than any recipe in it.
   */
  lemma OutputIsTopRanked(
    t: Tables, rating: string -> int, availableIngredients: seq<string>,
    recipes: seq<Recipe>, options: Options, r: Recipe)
    requires r in recipes && Keep(r, options)
    ensures var out := MatchRecipes(t, rating, availableIngredients, recipes, options);
      var x := Scored(t, NormalizeAll(availableIngredients), r);
      x in out || forall m :: m in out ==> Compare(rating, m, x) <= 0
  {
    var available := NormalizeAll(availableIngredients);
    var scored := ScoreAll(t, available, FilterRecipes(recipes, options));
    var ranked := Sort(rating, scored);
    SortSorted(rating, scored);
    var out := MatchRecipes(t, rating, availableIngredients, recipes, options);
    assert out == ranked[..Min(MaxResults, |ranked|)];
    var x := Scored(t, available, r);
    FilteredKept(recipes, options, r);
    ScoredIn(t, available, FilterRecipes(recipes, options), r);
    assert x in multiset(ranked);
    PrefixOfSorted(rating, ranked, Min(MaxResults, |ranked|), x);
  }

  /**
   The ranking is the stable sort of the scored recipes: any order that is
   sorted by the comparator and keeps catalog order among equal keys
   begins with the returned list.
   */
  lemma OutputIsStableRanking(
    t: Tables, rating: string -> int, availableIngredients: seq<string>,
    recipes: seq<Recipe>, options: Options, ranking: seq<MatchResult>)
    requires Sorted(rating, ranking)
    requires forall k ::
      WithKey(rating, ranking, k) ==
      WithKey(rating, ScoreAll(t, NormalizeAll(availableIngredients), FilterRecipes(recipes, options)), k)
    ensures MatchRecipes(t, rating, availableIngredients, recipes, options)
      == ranking[..Min(MaxResults, |ranking|)]
  {
    SortIsTheStableSort(rating, ScoreAll(t, NormalizeAll(availableIngredients), FilterRecipes(recipes, options)), ranking);
  }

  /** Adding ingredients to the available list never lowers any recipe's score. */
  lemma MoreIngredientsNeverLowerScore(t: Tables, availableIngredients: seq<string>, extra: seq<string>, r: Recipe)
    requires WellFormed(t)
    ensures Scored(t, NormalizeAll(availableIngredients), r).matchScore
      <= Scored(t, NormalizeAll(availableIngredients + extra), r).matchScore
  {
    NormalizeAllAppend(availableIngredients, extra);
    PercentMonotone(t, NormalizeAll(availableIngredients), NormalizeAll(availableIngredients + extra), NormalizeAll(r.ingredients));
  }

  /**
   With no ingredients available, every returned recipe scores 0 with
   nothing credited. Such recipes are still returned: only the filters
   remove recipes.
   */
  lemma EmptyAvailableScoresZero(t: Tables, rating: string -> int, recipes: seq<Recipe>, options: Options)
    ensures forall m :: m in MatchRecipes(t, rating, [], recipes, options) ==>
      && m.matchScore == 0
      && m.have == 0 && m.substitutionsSuggested == 0 && m.substitutionDetails == []
  {
    assert NormalizeAll([]) == [];
    forall m | m in MatchRecipes(t, rating, [], recipes, options)
      ensures m.matchScore == 0
      ensures m.have == 0 && m.substitutionsSuggested == 0 && m.substitutionDetails == []
    {
      NothingAvailableScoresZero(t, NormalizeAll(m.recipe.ingredients));
    }
  }

  // -----------------------------------------------------------------------
  // Worked examples over the source's own tables

  lemma NoneAvailable(candidates: seq<string>, available: seq<string>)
    requires forall c :: c in candidates ==> IsNormal(c) && c !in available
    ensures FirstAvailable(candidates, available) == None
  {
    forall j | 0 <= j < |candidates|
      ensures !Present(candidates[j], available)
    {
      assert candidates[j] in candidates;
      NormalizeFixes(candidates[j]);
    }
  }

  lemma FirstIsAvailable(candidates: seq<string>, available: seq<string>)
    requires |candidates| > 0 && IsNormal(candidates[0]) && candidates[0] in available
    ensures FirstAvailable(candidates, available) == Some(0)
  {
    NormalizeFixes(candidates[0]);
  }

  /** Milk is in no similarity group, so only milk itself could match it that way. */
  lemma MilkHasNoGroup(av: seq<string>)
    ensures SimilarAvailable(DefaultTables, av, "milk") <==> "milk" in av
  {
    MilkInNoGroup(DefaultTables.similar, "milk");
    assert FindSimilar(DefaultTables.similar, "milk") == ["milk"];
  }

  lemma MilkInNoGroup(gs: seq<Entry>, ing: string)
    requires gs == DefaultTables.similar && ing == "milk"
    ensures FirstGroup(gs, ing) == None
  {
    assert !InGroup(gs[0], ing);
    assert !InGroup(gs[1], ing);
    assert !InGroup(gs[2], ing);
    assert !InGroup(gs[3], ing);
    assert !InGroup(gs[4], ing);
  }

  lemma MilkSubstitutesAbsent(av: seq<string>)
    requires av == ["tomato", "onion", "egg"]
    ensures SubstituteFor(DefaultTables.substitutions, "milk", av) == None
  {
    var e := DefaultTables.substitutions[0];
    assert e.key == "milk";
    assert LookupKey(DefaultTables.substitutions, "milk") == Some(0);
    MilkCandidatesAbsent(e.values, av);
  }

  lemma MilkCandidatesAbsent(vs: seq<string>, av: seq<string>)
    requires vs == ["almond milk", "soy milk", "oat milk", "coconut milk"]
    requires av == ["tomato", "onion", "egg"]
    ensures FirstAvailable(vs, av) == None
  {
    assert IsNormal(vs[0]) && IsNormal(vs[1]) && IsNormal(vs[2]) && IsNormal(vs[3]);
    NoneAvailable(vs, av);
  }

  lemma MilkUnmet(av: seq<string>)
    requires av == ["tomato", "onion", "egg"]
    ensures Classify(DefaultTables, av, "milk") == Unmet
  {
    MilkHasNoGroup(av);
    MilkSubstitutesAbsent(av);
  }

  lemma TwoOfThreeScore(av: seq<string>, req: seq<string>)
    requires av == ["tomato", "onion", "egg"]
    requires req == ["tomato", "onion", "milk"]
    ensures var sc := ScoreOf(DefaultTables, av, req);
      sc.have == 2 && sc.similar == 0 && sc.possibleWithSub == 0 && sc.totalNeeded == 3
  {
    var a, b, c := av[0], av[1], "milk";
    assert req == [a, b, c];
    MilkUnmet(av);
    ThreeScore(DefaultTables, av, a, b, c);
  }

  lemma ThreeScore(t: Tables, av: seq<string>, a: string, b: string, c: string)
    requires a in av && b in av && Classify(t, av, c) == Unmet
    ensures var sc := ScoreOf(t, av, [a, b, c]);
      sc.have == 2 && sc.similar == 0 && sc.possibleWithSub == 0 && sc.totalNeeded == 3
  {
    ScoreOfSnoc(t, av, [], a);
    assert [] + [a] == [a];
    ScoreOfSnoc(t, av, [a], b);
    assert [a] + [b] == [a, b];
    ScoreOfSnoc(t, av, [a, b], c);
    assert [a, b] + [c] == [a, b, c];
  }

  /** Two of three ingredients exact, milk unmet: round(200/3) = 67. */
  lemma TwoOfThreeScores67(available: seq<string>, r: Recipe)
    requires available == ["tomato", "onion", "egg"]
    requires r.ingredients == ["tomato", "onion", "milk"]
    ensures var m := Scored(DefaultTables, NormalizeAll(available), r);
      m.have == 2 && m.substitutionsSuggested == 0 && m.needed == 3 && m.matchScore == 67
  {
    NormalThree(available);
    NormalThree(r.ingredients);
    TwoOfThreeScore(available, r.ingredients);
    var sc := ScoreOf(DefaultTables, available, r.ingredients);
    assert sc.Credit() == 20;
    assert MatchScore(20, 3) == 67;
  }

  lemma NormalOne(ss: seq<string>)
    requires ss == ["almond milk"] || ss == ["milk"] || ss == ["cherry tomato"] || ss == ["tomato"]
    ensures NormalizeAll(ss) == ss
  {
    assert IsNormal(ss[0]);
    NormalizeAllFixes(ss);
  }

  lemma NormalThree(ss: seq<string>)
    requires ss == ["tomato", "onion", "egg"] || ss == ["tomato", "onion", "milk"]
    ensures NormalizeAll(ss) == ss
  {
    assert IsNormal(ss[0]) && IsNormal(ss[1]) && IsNormal(ss[2]);
    NormalizeAllFixes(ss);
  }

  lemma AlmondMilkSubstitutes(av: seq<string>)
    requires av == ["almond milk"]
    ensures SubstituteFor(DefaultTables.substitutions, "milk", av) == Some("almond milk")
  {
    var e := DefaultTables.substitutions[0];
    assert e.key == "milk";
    assert LookupKey(DefaultTables.substitutions, "milk") == Some(0);
    assert IsNormal(e.values[0]);
    FirstIsAvailable(e.values, av);
  }

  lemma MilkBySubstitute(av: seq<string>)
    requires av == ["almond milk"]
    ensures Classify(DefaultTables, av, "milk") == Substituted("almond milk")
  {
    MilkHasNoGroup(av);
    AlmondMilkSubstitutes(av);
  }

  lemma MilkSubstitutedScore(av: seq<string>, req: seq<string>)
    requires av == ["almond milk"] && req == ["milk"]
    ensures var sc := ScoreOf(DefaultTables, av, req);
      && sc.have == 0 && sc.similar == 0 && sc.possibleWithSub == 1 && sc.totalNeeded == 1
      && sc.details == [SubstitutionDetail("milk", "almond milk")]
  {
    MilkBySubstitute(av);
    OneSubstituted(DefaultTables, av, "milk", "almond milk");
  }

  lemma OneSubstituted(t: Tables, av: seq<string>, a: string, sub: string)
    requires Classify(t, av, a) == Substituted(sub)
    ensures var sc := ScoreOf(t, av, [a]);
      && sc.have == 0 && sc.similar == 0 && sc.possibleWithSub == 1 && sc.totalNeeded == 1
      && sc.details == [SubstitutionDetail(a, sub)]
  {
    ScoreOfSnoc(t, av, [], a);
    assert [] + [a] == [a];
  }

  /** Milk is satisfied by almond milk through the substitution table: 70. */
  lemma MilkSubstitutedScores70(available: seq<string>, r: Recipe)
    requires available == ["almond milk"]
    requires r.ingredients == ["milk"]
    ensures var m := Scored(DefaultTables, NormalizeAll(available), r);
      && m.have == 0 && m.substitutionsSuggested == 1 && m.matchScore == 70
      && m.substitutionDetails == [SubstitutionDetail("milk", "almond milk")]
  {
    NormalOne(available);
    NormalOne(r.ingredients);
    MilkSubstitutedScore(available, r.ingredients);
    assert ScoreOf(DefaultTables, available, r.ingredients).Credit() == 7;
    assert MatchScore(7, 1) == 70;
  }

  lemma TomatoBySimilar(av: seq<string>)
    requires av == ["cherry tomato"]
    ensures Classify(DefaultTables, av, "tomato") == Similar
  {
    var g := DefaultTables.similar[0];
    assert InGroup(g, "tomato");
    assert FirstGroup(DefaultTables.similar, "tomato") == Some(0);
    assert g.values[1] == "cherry tomato" == av[0];
    assert "cherry tomato" in FindSimilar(DefaultTables.similar, "tomato");
  }

  lemma CherryTomatoScore(av: seq<string>, req: seq<string>)
    requires av == ["cherry tomato"] && req == ["tomato"]
    ensures var sc := ScoreOf(DefaultTables, av, req);
      sc.have == 0 && sc.similar == 1 && sc.possibleWithSub == 0 && sc.totalNeeded == 1
  {
    TomatoBySimilar(av);
    ScoreOfSnoc(DefaultTables, av, [], "tomato");
    assert [] + ["tomato"] == req;
  }

  /** Tomato is satisfied by cherry tomato through its similarity group: 90. */
  lemma CherryTomatoScores90(available: seq<string>, r: Recipe)
    requires available == ["cherry tomato"]
    requires r.ingredients == ["tomato"]
    ensures var m := Scored(DefaultTables, NormalizeAll(available), r);
      m.have == 0 && m.substitutionsSuggested == 0 && m.matchScore == 90
  {
    NormalOne(available);
    NormalOne(r.ingredients);
    CherryTomatoScore(available, r.ingredients);
    assert ScoreOf(DefaultTables, available, r.ingredients).Credit() == 9;
    assert MatchScore(9, 1) == 90;
  }

  lemma VeganRejectsVegetarian(o: Options, r: Recipe)
    requires o == Options(Some("vegan"), None, None)
    requires r.diet == ["vegetarian"]
    ensures !Keep(r, o)
  {
    assert IsNormal(r.diet[0]);
    NormalizeAllFixes(r.diet);
    assert IsNormal(o.diet.value);
    NormalizeFixes(o.diet.value);
  }

  /** A vegetarian-only recipe is excluded by a vegan filter despite full overlap. */
  lemma VeganFilterExcludesVegetarian(rating: string -> int, available: seq<string>, r: Recipe)
    requires r.diet == ["vegetarian"]
    ensures MatchRecipes(DefaultTables, rating, available, [r], Options(Some("vegan"), None, None)) == []
  {
    VeganRejectsVegetarian(Options(Some("vegan"), None, None), r);
    assert [r] == [] + [r];
  }

}
