/**
 The two static lookup tables of the matcher and the lookups over them:
 the substitution table (an ingredient and its acceptable replacements, in
 preference order) and the similarity groups (a canonical name and its
 interchangeable variants). Both are ordered lists of entries, in the
 insertion order that `Object.keys` / `Object.entries` visit them.
 */
module Tables {
  import opened Wrappers
  import opened Text

  datatype Entry = Entry(key: string, values: seq<string>)

  datatype Tables = Tables(substitutions: seq<Entry>, similar: seq<Entry>)

  /** The tables written into `matchRecipes`. */
  const DefaultTables: Tables := Tables(
    [ Entry("milk", ["almond milk", "soy milk", "oat milk", "coconut milk"]),
      Entry("butter", ["margarine", "olive oil", "coconut oil"]),
      Entry("egg", ["flax egg", "applesauce", "chia egg"]),
      Entry("chicken", ["turkey", "tofu", "tempeh"]),
      Entry("beef", ["lamb", "pork", "plant-based beef"]),
      Entry("pasta", ["rice noodles", "zucchini noodles", "quinoa"]),
      Entry("rice", ["quinoa", "couscous", "bulgur"]),
      Entry("flour", ["almond flour", "coconut flour", "oat flour"]),
      Entry("sugar", ["honey", "maple syrup", "agave"]),
      Entry("soy sauce", ["tamari", "coconut aminos", "worcestershire sauce"]) ],
    [ Entry("tomato", ["tomatoes", "cherry tomato", "roma tomato"]),
      Entry("onion", ["onions", "shallot", "scallion", "green onion"]),
      Entry("cheese", ["cheddar", "mozzarella", "parmesan", "feta"]),
      Entry("pepper", ["bell pepper", "green pepper", "red pepper"]),
      Entry("oil", ["olive oil", "vegetable oil", "canola oil"]) ])

  /**
   Every substitute is a non-empty string. The source relies on this: a
   substitute found by `find` is only credited when it is truthy.
   */
  predicate WellFormed(t: Tables) {
    forall e, v :: e in t.substitutions && v in e.values ==> v != ""
  }

  /**
   The literal tables are well formed, and every key in them is a
   non-empty string, so no entry is skipped for a falsy key.
   */
  lemma DefaultTablesWellFormed()
    ensures WellFormed(DefaultTables)
    ensures forall i :: 0 <= i < |DefaultTables.substitutions| ==> DefaultTables.substitutions[i].key != ""
    ensures forall i :: 0 <= i < |DefaultTables.similar| ==> DefaultTables.similar[i].key != ""
  {
    DefaultKeysNonEmpty(DefaultTables.substitutions);
    DefaultKeysNonEmpty(DefaultTables.similar);
  }

  lemma DefaultKeysNonEmpty(table: seq<Entry>)
    requires table == DefaultTables.substitutions || table == DefaultTables.similar
    ensures forall i :: 0 <= i < |table| ==> table[i].key != ""
  {
  }

  /** The position of the first element satisfying `p`, if any: `Array.prototype.find`. */
  function FindIndex<T>(xs: seq<T>, p: T -> bool): (r: Option<nat>)
    ensures r.Some? ==> r.value < |xs| && p(xs[r.value])
    ensures r.Some? ==> forall j :: 0 <= j < r.value ==> !p(xs[j])
    ensures r.None? <==> forall j :: 0 <= j < |xs| ==> !p(xs[j])
  {
    if |xs| == 0 then None
    else if p(xs[0]) then Some(0)
    else match FindIndex(xs[1..], p)
      case None => None
      case Some(i) => Some(i + 1)
  }

  // ---------------------------------------------------------------------
  // Similarity groups

  /** `ing` is the group's canonical key or one of its variants. */
  predicate InGroup(g: Entry, ing: string) {
    ing in g.values || g.key == ing
  }

  /** The position of the first group containing `ing`, if any. */
  function FirstGroup(groups: seq<Entry>, ing: string): (r: Option<nat>)
    ensures r.Some? ==> r.value < |groups| && InGroup(groups[r.value], ing)
    ensures r.Some? ==> forall j :: 0 <= j < r.value ==> !InGroup(groups[j], ing)
    ensures r.None? <==> forall j :: 0 <= j < |groups| ==> !InGroup(groups[j], ing)
  {
    FindIndex(groups, g => InGroup(g, ing))
  }

  /**
   `findSimilar`: the key and variants of the first group containing
   `ing`, or the singleton `[ing]` when no group contains it.
   */
  function FindSimilar(groups: seq<Entry>, ing: string): (r: seq<string>)
    ensures ing in r
    ensures FirstGroup(groups, ing).Some? ==>
      r == [groups[FirstGroup(groups, ing).value].key] + groups[FirstGroup(groups, ing).value].values
    ensures FirstGroup(groups, ing).None? ==> r == [ing]
  {
    match FirstGroup(groups, ing)
    case Some(i) => [groups[i].key] + groups[i].values
    case None => [ing]
  }

  /** Some candidate is in the available list as it stands (lib/recipeMatcher.js:53). */
  predicate AnyAvailable(candidates: seq<string>, available: seq<string>) {
    exists s :: s in candidates && s in available
  }

  // ---------------------------------------------------------------------
  // Substitutions

  /** The position of the first substitution entry whose key equals `ing` (lib/recipeMatcher.js:59). */
  function LookupKey(table: seq<Entry>, ing: string): (r: Option<nat>)
    ensures r.Some? ==> r.value < |table| && table[r.value].key == ing
    ensures r.Some? ==> forall j :: 0 <= j < r.value ==> table[j].key != ing
    ensures r.None? <==> forall j :: 0 <= j < |table| ==> table[j].key != ing
  {
    FindIndex(table, (e: Entry) => e.key == ing)
  }

  /** The normalised form of `s` is in the available list (lib/recipeMatcher.js:62). */
  predicate Present(s: string, available: seq<string>) {
    Normalize(s) in available
  }

  /** The position of the first candidate that is `Present` (lib/recipeMatcher.js:62). */
  function FirstAvailable(candidates: seq<string>, available: seq<string>): (r: Option<nat>)
    ensures r.Some? ==> r.value < |candidates| && Present(candidates[r.value], available)
    ensures r.Some? ==> forall j :: 0 <= j < r.value ==> !Present(candidates[j], available)
    ensures r.None? <==> forall j :: 0 <= j < |candidates| ==> !Present(candidates[j], available)
  {
    FindIndex(candidates, s => Present(s, available))
  }

  /**
   The substitute the matcher credits for `ing`: the first candidate, in
   table order, of the first entry keyed `ing`, whose normalised form is
   available. A falsy key or a falsy substitute earns nothing.
   */
  function SubstituteFor(table: seq<Entry>, ing: string, available: seq<string>): (r: Option<string>)
    ensures r.Some? ==> r.value != "" && Present(r.value, available)
    ensures r.Some? ==> exists e :: e in table && e.key == ing && r.value in e.values
    ensures (forall e :: e in table ==> e.key != ing) ==> r.None?
  {
    match LookupKey(table, ing)
    case None => None
    case Some(k) =>
      if table[k].key == "" then None
      else match FirstAvailable(table[k].values, available)
        case None => None
        case Some(j) =>
          var s := table[k].values[j];
          if s == "" then None else Some(s)
  }

  /** `k` is the position of the first entry of `table` keyed `ing`. */
  predicate FirstKeyAt(table: seq<Entry>, ing: string, k: nat) {
    k < |table| && table[k].key == ing && forall j :: 0 <= j < k ==> table[j].key != ing
  }

  /** `i` is the position of the first candidate of `vs` whose normalised form is available. */
  predicate FirstPresentAt(vs: seq<string>, available: seq<string>, i: nat) {
    i < |vs| && Present(vs[i], available) && forall j :: 0 <= j < i ==> !Present(vs[j], available)
  }

  /**
   `s` is the substitute the source credits for `ing`, described without
   the lookup chain: `ing` is truthy, `s` is the first available candidate
   of the first entry keyed `ing`, and `s` is truthy.
   */
  ghost predicate IsFirstSubstitute(table: seq<Entry>, ing: string, available: seq<string>, s: string) {
    && ing != "" && s != ""
    && exists k: nat, i: nat :: FirstKeyAt(table, ing, k) && FirstPresentAt(table[k].values, available, i) && table[k].values[i] == s
  }

  /** Some candidate fits `IsFirstSubstitute`. */
  ghost predicate HasFirstSubstitute(table: seq<Entry>, ing: string, available: seq<string>) {
    exists s :: IsFirstSubstitute(table, ing, available, s)
  }

  /** The lookup chain finds exactly the substitute described by `IsFirstSubstitute`. */
  lemma SubstituteForIsFirst(table: seq<Entry>, ing: string, available: seq<string>, s: string)
    ensures SubstituteFor(table, ing, available) == Some(s) <==> IsFirstSubstitute(table, ing, available, s)
  {
    if SubstituteFor(table, ing, available) == Some(s) {
      FoundIsFirst(table, ing, available);
    }
    if IsFirstSubstitute(table, ing, available, s) {
      FirstIsFound(table, ing, available, s);
    }
  }

  /** When the lookup chain finds nothing, no candidate fits `IsFirstSubstitute`. */
  lemma NoneIsNoFirst(table: seq<Entry>, ing: string, available: seq<string>)
    requires SubstituteFor(table, ing, available).None?
    ensures !HasFirstSubstitute(table, ing, available)
  {
    forall s | IsFirstSubstitute(table, ing, available, s)
      ensures false
    {
      FirstIsFound(table, ing, available, s);
    }
  }

  lemma FoundIsFirst(table: seq<Entry>, ing: string, available: seq<string>)
    requires SubstituteFor(table, ing, available).Some?
    ensures IsFirstSubstitute(table, ing, available, SubstituteFor(table, ing, available).value)
  {
    var k := LookupKey(table, ing).value;
    var i := FirstAvailable(table[k].values, available).value;
    assert FirstKeyAt(table, ing, k) && FirstPresentAt(table[k].values, available, i);
  }

  lemma FirstIsFound(table: seq<Entry>, ing: string, available: seq<string>, s: string)
    requires IsFirstSubstitute(table, ing, available, s)
    ensures SubstituteFor(table, ing, available) == Some(s)
  {
    var k: nat, i: nat :| FirstKeyAt(table, ing, k) && FirstPresentAt(table[k].values, available, i) && table[k].values[i] == s;
    assert LookupKey(table, ing) == Some(k);
    assert FirstAvailable(table[k].values, available) == Some(i);
  }

  /**
   Over well-formed tables, a substitute is found exactly when the entry
   for `ing` has some candidate whose normalised form is available, and
   then it is the first such candidate.
   */
  lemma SubstituteForIsFirstAvailable(table: seq<Entry>, ing: string, available: seq<string>, k: nat)
    requires forall e, v :: e in table && v in e.values ==> v != ""
    requires ing != ""
    requires k < |table| && table[k].key == ing
    requires forall j :: 0 <= j < k ==> table[j].key != ing
    ensures SubstituteFor(table, ing, available).None? <==>
      forall j :: 0 <= j < |table[k].values| ==> !Present(table[k].values[j], available)
    ensures SubstituteFor(table, ing, available).Some? ==>
      exists i :: 0 <= i < |table[k].values|
        && SubstituteFor(table, ing, available).value == table[k].values[i]
        && Present(table[k].values[i], available)
        && forall j :: 0 <= j < i ==> !Present(table[k].values[j], available)
  {
    assert LookupKey(table, ing) == Some(k);
    var f := FirstAvailable(table[k].values, available);
    if f.Some? {
      assert table[k].values[f.value] in table[k].values;
    }
  }

  /** Making more ingredients available never loses a substitute (over well-formed tables). */
  lemma SubstituteForMonotone(table: seq<Entry>, ing: string, available: seq<string>, more: seq<string>)
    requires forall e, v :: e in table && v in e.values ==> v != ""
    requires forall x :: x in available ==> x in more
    ensures SubstituteFor(table, ing, available).Some? ==> SubstituteFor(table, ing, more).Some?
  {
    if SubstituteFor(table, ing, available).Some? {
      var k := LookupKey(table, ing).value;
      var j := FirstAvailable(table[k].values, available).value;
      assert Present(table[k].values[j], more);
      var j' := FirstAvailable(table[k].values, more).value;
      assert table[k].values[j'] in table[k].values;
    }
  }

}
