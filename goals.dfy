/** The goal catalog (goals/goals.go): the base game's, the European
    expansion's and the Oceania expansion's end-of-round goals, and the
    pool of goals for a choice of expansions. */
module GoalCatalog {

  /** A goal tile side, by its ID and its expansion tag. */
  datatype Goal = Goal(id: string, expansion: string)

  const BaseGameGoals: seq<Goal> := [
    Goal("base-birds-forest", "base"),
    Goal("base-birds-grassland", "base"),
    Goal("base-birds-wetland", "base"),
    Goal("base-birds-bowl-egg", "base"),
    Goal("base-birds-cavity-egg", "base"),
    Goal("base-birds-ground-egg", "base"),
    Goal("base-birds-platform-egg", "base"),
    Goal("base-eggs-forest", "base"),
    Goal("base-eggs-grassland", "base"),
    Goal("base-eggs-wetland", "base"),
    Goal("base-eggs-bowl", "base"),
    Goal("base-eggs-cavity", "base"),
    Goal("base-eggs-ground", "base"),
    Goal("base-eggs-platform", "base"),
    Goal("base-egg-sets", "base"),
    Goal("base-total-birds", "base")]

  const EuropeanGoals: seq<Goal> := [
    Goal("eu-birds-tucked", "european"),
    Goal("eu-food-cost", "european"),
    Goal("eu-birds-one-row", "european"),
    Goal("eu-filled-columns", "european"),
    Goal("eu-brown-powers", "european"),
    Goal("eu-white-no-powers", "european"),
    Goal("eu-birds-high-value", "european"),
    Goal("eu-birds-no-eggs", "european"),
    Goal("eu-food-supply", "european"),
    Goal("eu-cards-hand", "european")]

  const OceaniaGoals: seq<Goal> := [
    Goal("oc-beak-left", "oceania"),
    Goal("oc-beak-right", "oceania"),
    Goal("oc-invertebrate-cost", "oceania"),
    Goal("oc-fruit-seed-cost", "oceania"),
    Goal("oc-no-goal", "oceania"),
    Goal("oc-rat-fish-cost", "oceania"),
    Goal("oc-cubes-play-bird", "oceania"),
    Goal("oc-birds-low-value", "oceania")]

  /** The given lists of the chosen expansions, appended in the order
      base, European, Oceania. */
  function Pool(base: seq<Goal>, european: seq<Goal>, oceania: seq<Goal>,
                includeBase: bool, includeEuropean: bool, includeOceania: bool): seq<Goal>
  {
    var allGoals := [];
    var allGoals := if includeBase then allGoals + base else allGoals;
    var allGoals := if includeEuropean then allGoals + european else allGoals;
    if includeOceania then allGoals + oceania else allGoals
  }

  /** GetAllGoals: the pool built from the three catalog lists. */
  function GetAllGoals(includeBase: bool, includeEuropean: bool, includeOceania: bool): seq<Goal>
  {
    Pool(BaseGameGoals, EuropeanGoals, OceaniaGoals, includeBase, includeEuropean, includeOceania)
  }

  /** Every goal in the catalog, in list order. */
  const Catalog: seq<Goal> := BaseGameGoals + EuropeanGoals + OceaniaGoals

  /** Whether the chosen expansions include expansion `tag`. */
  predicate TagChosen(tag: string, includeBase: bool, includeEuropean: bool, includeOceania: bool)
  {
    || (tag == "base" && includeBase)
    || (tag == "european" && includeEuropean)
    || (tag == "oceania" && includeOceania)
  }

  /** Whether the chosen expansions include the one a goal is tagged with. */
  predicate Chosen(g: Goal, includeBase: bool, includeEuropean: bool, includeOceania: bool)
  {
    TagChosen(g.expansion, includeBase, includeEuropean, includeOceania)
  }

  /** The goals of `s` that satisfy the choice, in order. */
  function Select(s: seq<Goal>, includeBase: bool, includeEuropean: bool, includeOceania: bool): (r: seq<Goal>)
    ensures |r| <= |s|
  {
    if s == [] then []
    else
      var rest := Select(s[..|s| - 1], includeBase, includeEuropean, includeOceania);
      if Chosen(s[|s| - 1], includeBase, includeEuropean, includeOceania) then rest + [s[|s| - 1]] else rest
  }

  lemma {:induction false} SelectAppend(a: seq<Goal>, b: seq<Goal>, includeBase: bool, includeEuropean: bool, includeOceania: bool)
    ensures Select(a + b, includeBase, includeEuropean, includeOceania)
         == Select(a, includeBase, includeEuropean, includeOceania) + Select(b, includeBase, includeEuropean, includeOceania)
    decreases |b|
  {
    if b == [] {
      assert a + b == a;
    } else {
      var init := b[..|b| - 1];
      assert (a + b)[..|a + b| - 1] == a + init;
      SelectAppend(a, init, includeBase, includeEuropean, includeOceania);
    }
  }

  /** Selecting goals that all carry tag `tag` keeps all of them when that
      tag is chosen and none otherwise. */
  lemma {:induction false} SelectTagged(s: seq<Goal>, tag: string, includeBase: bool, includeEuropean: bool, includeOceania: bool)
    requires forall i :: 0 <= i < |s| ==> s[i].expansion == tag
    ensures Select(s, includeBase, includeEuropean, includeOceania)
         == if TagChosen(tag, includeBase, includeEuropean, includeOceania) then s else []
  {
    if s != [] {
      var init := s[..|s| - 1];
      SelectTagged(init, tag, includeBase, includeEuropean, includeOceania);
      assert init + [s[|s| - 1]] == s;
    }
  }

  /** Each list carries its own expansion tag. */
  lemma ListTags()
    ensures forall i :: 0 <= i < |BaseGameGoals| ==> BaseGameGoals[i].expansion == "base"
    ensures forall i :: 0 <= i < |EuropeanGoals| ==> EuropeanGoals[i].expansion == "european"
    ensures forall i :: 0 <= i < |OceaniaGoals| ==> OceaniaGoals[i].expansion == "oceania"
  {
  }

  /** Each list's IDs carry its own prefix. */
  lemma ListIdPrefixes()
    ensures forall i :: 0 <= i < |BaseGameGoals| ==> BaseGameGoals[i].id[..5] == "base-"
    ensures forall i :: 0 <= i < |EuropeanGoals| ==> EuropeanGoals[i].id[..3] == "eu-"
    ensures forall i :: 0 <= i < |OceaniaGoals| ==> OceaniaGoals[i].id[..3] == "oc-"
  {
  }

  /** Appending lists that each carry one expansion's tag is filtering
      their concatenation by the chosen expansions. */
  lemma PoolSelects(base: seq<Goal>, european: seq<Goal>, oceania: seq<Goal>,
                    includeBase: bool, includeEuropean: bool, includeOceania: bool)
    requires forall i :: 0 <= i < |base| ==> base[i].expansion == "base"
    requires forall i :: 0 <= i < |european| ==> european[i].expansion == "european"
    requires forall i :: 0 <= i < |oceania| ==> oceania[i].expansion == "oceania"
    ensures Pool(base, european, oceania, includeBase, includeEuropean, includeOceania)
         == Select(base + european + oceania, includeBase, includeEuropean, includeOceania)
  {
    TagsChosen(includeBase, includeEuropean, includeOceania);
    SelectTagged(base, "base", includeBase, includeEuropean, includeOceania);
    SelectTagged(european, "european", includeBase, includeEuropean, includeOceania);
    SelectTagged(oceania, "oceania", includeBase, includeEuropean, includeOceania);
    var sb := Select(base, includeBase, includeEuropean, includeOceania);
    var se := Select(european, includeBase, includeEuropean, includeOceania);
    var so := Select(oceania, includeBase, includeEuropean, includeOceania);
    AppendChosen([], base, includeBase, sb);
    var p1 := if includeBase then [] + base else [];
    assert p1 == sb;
    SelectAppend(base, european, includeBase, includeEuropean, includeOceania);
    AppendChosen(p1, european, includeEuropean, se);
    var p2 := if includeEuropean then p1 + european else p1;
    assert p2 == Select(base + european, includeBase, includeEuropean, includeOceania);
    SelectAppend(base + european, oceania, includeBase, includeEuropean, includeOceania);
    AppendChosen(p2, oceania, includeOceania, so);
  }

  /** Appending `s` when `flag` is set is appending what `flag` selects. */
  lemma AppendChosen(acc: seq<Goal>, s: seq<Goal>, flag: bool, selected: seq<Goal>)
    requires selected == if flag then s else []
    ensures (if flag then acc + s else acc) == acc + selected
    ensures [] + selected == selected
  {
    assert acc + [] == acc;
  }

  /** Each expansion's tag is chosen exactly when its flag is set. */
  lemma TagsChosen(includeBase: bool, includeEuropean: bool, includeOceania: bool)
    ensures TagChosen("base", includeBase, includeEuropean, includeOceania) == includeBase
    ensures TagChosen("european", includeBase, includeEuropean, includeOceania) == includeEuropean
    ensures TagChosen("oceania", includeBase, includeEuropean, includeOceania) == includeOceania
  {
    assert "base"[0] != "european"[0] && "base"[0] != "oceania"[0] && "european"[0] != "oceania"[0];
  }

  /** The pool is the catalog filtered by the chosen expansions: exactly
      the goals whose tag was chosen, in catalog order. */
  lemma GetAllGoalsSelects(includeBase: bool, includeEuropean: bool, includeOceania: bool)
    ensures GetAllGoals(includeBase, includeEuropean, includeOceania) == Select(Catalog, includeBase, includeEuropean, includeOceania)
  {
    ListTags();
    PoolSelects(BaseGameGoals, EuropeanGoals, OceaniaGoals, includeBase, includeEuropean, includeOceania);
  }

  /** 16 base goals, 10 European, 8 Oceania. */
  lemma GetAllGoalsLength(includeBase: bool, includeEuropean: bool, includeOceania: bool)
    ensures |GetAllGoals(includeBase, includeEuropean, includeOceania)|
         == (if includeBase then 16 else 0) + (if includeEuropean then 10 else 0) + (if includeOceania then 8 else 0)
  {
  }

  /** No expansion chosen, no goals. */
  lemma NoExpansionNoGoals()
    ensures GetAllGoals(false, false, false) == []
  {
  }

  /** No ID occurs twice in a list of goals. */
  ghost predicate UniqueIds(s: seq<Goal>)
  {
    forall i, j :: 0 <= i < j < |s| ==> s[i].id != s[j].id
  }

  /** Every ID in `s` starts with `c`. */
  ghost predicate IdsStartWith(s: seq<Goal>, c: char)
  {
    forall i :: 0 <= i < |s| ==> |s[i].id| > 0 && s[i].id[0] == c
  }

  /** IDs that differ in length or in character `k` are different. */
  lemma DistinctByKey(s: seq<Goal>, k: nat)
    requires forall i :: 0 <= i < |s| ==> k < |s[i].id|
    requires forall i, j :: 0 <= i < j < |s| ==> |s[i].id| != |s[j].id| || s[i].id[k] != s[j].id[k]
    ensures UniqueIds(s)
  {
  }

  lemma BaseIdsUnique()
    ensures UniqueIds(BaseGameGoals)
  {
    DistinctByKey(BaseGameGoals, 11);
  }

  lemma EuropeanIdsUnique()
    ensures UniqueIds(EuropeanGoals)
  {
    DistinctByKey(EuropeanGoals, 9);
  }

  lemma OceaniaIdsUnique()
    ensures UniqueIds(OceaniaGoals)
  {
    DistinctByKey(OceaniaGoals, 3);
  }

  /** The lists' IDs start with 'b', 'e' and 'o'. */
  lemma ListFirstChars()
    ensures IdsStartWith(BaseGameGoals, 'b') && IdsStartWith(EuropeanGoals, 'e') && IdsStartWith(OceaniaGoals, 'o')
  {
  }

  /** No ID occurs twice in the whole catalog. */
  lemma CatalogIdsUnique()
    ensures UniqueIds(Catalog)
  {
    BaseIdsUnique();
    EuropeanIdsUnique();
    OceaniaIdsUnique();
    ListFirstChars();
    UniqueIdsOfThree(BaseGameGoals, EuropeanGoals, OceaniaGoals, 'b', 'e', 'o');
  }

  /** Three lists without repeated IDs, whose IDs start with three
      different characters, share no ID. */
  lemma UniqueIdsOfThree(a: seq<Goal>, b: seq<Goal>, c: seq<Goal>, ca: char, cb: char, cc: char)
    requires UniqueIds(a) && UniqueIds(b) && UniqueIds(c)
    requires IdsStartWith(a, ca) && IdsStartWith(b, cb) && IdsStartWith(c, cc)
    requires ca != cb && ca != cc && cb != cc
    ensures UniqueIds(a + b + c)
  {
    var s := a + b + c;
    forall i | 0 <= i < |s| ensures |s[i].id| > 0 && s[i].id[0] == (if i < |a| then ca else if i < |a| + |b| then cb else cc) {
      if i < |a| {
        assert s[i] == a[i];
      } else if i < |a| + |b| {
        assert s[i] == b[i - |a|];
      } else {
        assert s[i] == c[i - |a| - |b|];
      }
    }
    forall i, j | 0 <= i < j < |s| ensures s[i].id != s[j].id {
      if j < |a| {
        assert s[i] == a[i] && s[j] == a[j];
      } else if i >= |a| + |b| {
        assert s[i] == c[i - |a| - |b|] && s[j] == c[j - |a| - |b|];
      } else if |a| <= i && j < |a| + |b| {
        assert s[i] == b[i - |a|] && s[j] == b[j - |a|];
      }
    }
  }
}
