/**
 The catalog filter of `matchRecipes`: by diet tag, by difficulty and by
 maximum cooking time, applied before any scoring.
 */
module Filtering {
  import opened Wrappers
  import opened Text
  import opened Recipes

  /**
   The options record. `None` and `Some("")` are the falsy values of a
   string option. `maxTime` is the already-parsed `parseInt(options.maxTime)`:
   `None` stands for every value the source ignores (absent, `'any'`, a
   falsy value such as numeric 0, and a text that parses to NaN, since
   `r.time > NaN` is false).
   */
  datatype Options = Options(diet: Option<string>, difficulty: Option<string>, maxTime: Option<int>)

  predicate Truthy(o: Option<string>) {
    o.Some? && o.value != ""
  }

  /** `options.diet || 'any'` */
  function DietFilter(o: Options): string {
    if Truthy(o.diet) then o.diet.value else "any"
  }

  /** The diet test is on unless the filter is exactly `'any'` (compared before normalising). */
  predicate DietActive(o: Options) {
    DietFilter(o) != "any"
  }

  /** The difficulty test is on when the option is truthy and not exactly `'any'`. */
  predicate DifficultyActive(o: Options) {
    Truthy(o.difficulty) && o.difficulty.value != "any"
  }

  /**
   The body of the `recipes.filter` callback. Stated on the raw options:
   a recipe is kept exactly when a diet other than a falsy value or
   `'any'` is among its normalised tags, a difficulty other than a falsy
   value or `'any'` equals its own after normalising, and a time limit is
   not exceeded.
   */
  predicate Keep(r: Recipe, o: Options): (keep: bool)
    ensures keep <==>
      && (o.diet.Some? && o.diet.value != "" && o.diet.value != "any" ==>
            Normalize(o.diet.value) in NormalizeAll(r.diet))
      && (o.difficulty.Some? && o.difficulty.value != "" && o.difficulty.value != "any" ==>
            Normalize(r.difficulty) == Normalize(o.difficulty.value))
      && (o.maxTime.Some? ==> r.time <= o.maxTime.value)
  {
    && (DietActive(o) ==> Normalize(DietFilter(o)) in NormalizeAll(r.diet))
    && (DifficultyActive(o) ==> Normalize(r.difficulty) == Normalize(o.difficulty.value))
    && (o.maxTime.Some? ==> !(r.time > o.maxTime.value))
  }

  /**
   `recipes.filter(...)`: the kept recipes, in catalog order. Every kept
   recipe passes, and every passing recipe is kept as often as it occurs.
   */
  function FilterRecipes(rs: seq<Recipe>, o: Options): (kept: seq<Recipe>)
    ensures |kept| <= |rs|
    ensures forall r :: r in kept ==> Keep(r, o)
    ensures forall r :: multiset(kept)[r] == if Keep(r, o) then multiset(rs)[r] else 0
  {
    if |rs| == 0 then []
    else
      var rest := FilterRecipes(rs[1..], o);
      assert rs == [rs[0]] + rs[1..];
      assert multiset(rs) == multiset{rs[0]} + multiset(rs[1..]);
      if Keep(rs[0], o) then [rs[0]] + rest else rest
  }

  /** Filtering a concatenation filters each part: the kept recipes stay in catalog order. */
  lemma {:induction false} FilterRecipesAppend(a: seq<Recipe>, b: seq<Recipe>, o: Options)
    ensures FilterRecipes(a + b, o) == FilterRecipes(a, o) + FilterRecipes(b, o)
  {
    if |a| == 0 {
      assert a + b == b;
    } else {
      SplitHead(a, b);
      FilterRecipesAppend(a[1..], b, o);
      FilterRecipesCons(a[0], a[1..] + b, o);
      FilterRecipesCons(a[0], a[1..], o);
      Associative(if Keep(a[0], o) then [a[0]] else [], FilterRecipes(a[1..], o), FilterRecipes(b, o));
    }
  }

  lemma SplitHead<T>(a: seq<T>, b: seq<T>)
    requires |a| > 0
    ensures a == [a[0]] + a[1..]
    ensures a + b == [a[0]] + (a[1..] + b)
  {
  }

  lemma Associative<T>(x: seq<T>, y: seq<T>, z: seq<T>)
    ensures x + (y + z) == (x + y) + z
  {
  }

  /** The first recipe is kept in front of the rest exactly when it passes. */
  lemma FilterRecipesCons(r: Recipe, rs: seq<Recipe>, o: Options)
    ensures FilterRecipes([r] + rs, o) == (if Keep(r, o) then [r] else []) + FilterRecipes(rs, o)
  {
    assert ([r] + rs)[1..] == rs;
  }

  /** With every option falsy or `'any'`, no recipe is filtered out. */
  lemma {:induction false} NoFilterKeepsAll(rs: seq<Recipe>, o: Options)
    requires !DietActive(o) && !DifficultyActive(o) && o.maxTime.None?
    ensures FilterRecipes(rs, o) == rs
  {
    if |rs| > 0 {
      NoFilterKeepsAll(rs[1..], o);
      assert rs == [rs[0]] + rs[1..];
    }
  }

}
