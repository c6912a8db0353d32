/**
 The records the matcher consumes and produces. A missing `diet` or
 `ingredients` list in the catalog, which the source treats as empty
 (lib/recipeMatcher.js:40,82), is represented by the empty sequence.
 */
module Recipes {

  datatype Recipe = Recipe(
    id: string,
    title: string,
    cuisine: string,
    description: string,
    difficulty: string,
    time: int,
    diet: seq<string>,
    ingredients: seq<string>,
    steps: seq<string>)

  /** One `{ original, substitute }` pair of `substitutionDetails`. */
  datatype SubstitutionDetail = SubstitutionDetail(original: string, substitute: string)

  /**
   `{ ...r, matchScore, have, needed, substitutionsSuggested, substitutionDetails }`:
   the recipe, unchanged, extended with its score fields.
   */
  datatype MatchResult = MatchResult(
    recipe: Recipe,
    matchScore: int,
    have: nat,
    needed: nat,
    substitutionsSuggested: nat,
    substitutionDetails: seq<SubstitutionDetail>)

}
