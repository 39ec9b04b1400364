/** Challenge records and the challenge list page: search/difficulty/category filtering,
    the category menu, and resetting the filters (`ChallengesPage`). */
module Challenges {
  import opened Wrappers
  import opened Strings
  import opened Seqs

  /** A row of the `challenges` table, as far as the client logic reads it. */
  datatype Challenge = Challenge(
    id: int,
    title: string,
    description: string,
    category: string,
    difficulty: string,
    points: int,
    starterCode: Option<string>)

  /** The three filter inputs of the list page. */
  datatype Criteria = Criteria(query: string, difficulty: string, category: string)

  /** The lowercased query occurs in the lowercased title, description or category. */
  predicate MatchesQuery(c: Challenge, query: string) {
    var q := Lower(query);
    Contains(Lower(c.title), q) || Contains(Lower(c.description), q) || Contains(Lower(c.category), q)
  }

  /** `filterChallenges`: the search filter (only for a non-empty query), then the difficulty
      filter, then the category filter, each skipped when its choice is `'All'`. */
  function FilterChallenges(cs: seq<Challenge>, k: Criteria): (r: seq<Challenge>)
    ensures forall c :: c in r <==> c in cs && Shown(c, k)
  {
    var bySearch := if k.query != "" then Filter(cs, (c: Challenge) => MatchesQuery(c, k.query)) else cs;
    var byDifficulty := if k.difficulty != "All" then Filter(bySearch, (c: Challenge) => c.difficulty == k.difficulty) else bySearch;
    var byCategory := if k.category != "All" then Filter(byDifficulty, (c: Challenge) => c.category == k.category) else byDifficulty;
    FilterKeeps(cs, (c: Challenge) => MatchesQuery(c, k.query));
    FilterKeeps(bySearch, (c: Challenge) => c.difficulty == k.difficulty);
    FilterKeeps(byDifficulty, (c: Challenge) => c.category == k.category);
    byCategory
  }

  /** Reference definition: a challenge is shown exactly when it passes all three tests. */
  predicate Shown(c: Challenge, k: Criteria) {
    && (k.query == "" || MatchesQuery(c, k.query))
    && (k.difficulty == "All" || c.difficulty == k.difficulty)
    && (k.category == "All" || c.category == k.category)
  }

  /** The three successive filters are one filter by the conjunction of the tests. */
  lemma FilterIsConjunction(cs: seq<Challenge>, k: Criteria)
    ensures FilterChallenges(cs, k) == Filter(cs, (c: Challenge) => Shown(c, k))
  {
    var pQ := (c: Challenge) => k.query == "" || MatchesQuery(c, k.query);
    var pD := (c: Challenge) => k.difficulty == "All" || c.difficulty == k.difficulty;
    var pC := (c: Challenge) => k.category == "All" || c.category == k.category;
    var pQD := (c: Challenge) => pQ(c) && pD(c);
    var pAll := (c: Challenge) => Shown(c, k);
    var bySearch := if k.query != "" then Filter(cs, (c: Challenge) => MatchesQuery(c, k.query)) else cs;
    if k.query != "" {
      FilterSame(cs, (c: Challenge) => MatchesQuery(c, k.query), pQ);
    } else {
      FilterAllPass(cs, pQ);
    }
    assert bySearch == Filter(cs, pQ);
    var byDifficulty := if k.difficulty != "All" then Filter(bySearch, (c: Challenge) => c.difficulty == k.difficulty) else bySearch;
    if k.difficulty != "All" {
      FilterSame(bySearch, (c: Challenge) => c.difficulty == k.difficulty, pD);
    } else {
      FilterAllPass(bySearch, pD);
    }
    FilterFilter(cs, pQ, pD, pQD);
    assert byDifficulty == Filter(cs, pQD);
    if k.category != "All" {
      FilterSame(byDifficulty, (c: Challenge) => c.category == k.category, pC);
    } else {
      FilterAllPass(byDifficulty, pC);
    }
    FilterFilter(cs, pQD, pC, pAll);
  }

  /** Two predicates that agree everywhere filter alike. */
  lemma {:induction false} FilterSame(xs: seq<Challenge>, p: Challenge -> bool, q: Challenge -> bool)
    requires forall c :: p(c) == q(c)
    ensures Filter(xs, p) == Filter(xs, q)
  {
    if |xs| > 0 {
      FilterSame(xs[1..], p, q);
    }
  }

  /** The filtered list keeps challenges in their order, and holds exactly those that pass. */
  lemma FilteredIsOrderedSelection(cs: seq<Challenge>, k: Criteria)
    ensures IsSubsequence(FilterChallenges(cs, k), cs)
    ensures forall c :: c in FilterChallenges(cs, k) <==> c in cs && Shown(c, k)
  {
    FilterIsConjunction(cs, k);
    FilterKeeps(cs, (c: Challenge) => Shown(c, k));
  }

  /** A chosen difficulty or category is matched exactly by every challenge listed. */
  lemma FilteredMatchesChoices(cs: seq<Challenge>, k: Criteria)
    ensures k.difficulty != "All" ==> forall c :: c in FilterChallenges(cs, k) ==> c.difficulty == k.difficulty
    ensures k.category != "All" ==> forall c :: c in FilterChallenges(cs, k) ==> c.category == k.category
    ensures k.query != "" ==> forall c :: c in FilterChallenges(cs, k) ==> MatchesQuery(c, k.query)
  {
    FilteredIsOrderedSelection(cs, k);
  }

  /** Filtering an already filtered list with the same criteria changes nothing. */
  lemma FilterChallengesIdempotent(cs: seq<Challenge>, k: Criteria)
    ensures FilterChallenges(FilterChallenges(cs, k), k) == FilterChallenges(cs, k)
  {
    FilterIsConjunction(cs, k);
    FilterIsConjunction(FilterChallenges(cs, k), k);
    FilterIdempotent(cs, (c: Challenge) => Shown(c, k));
  }

  /** `clearFilters`: empty search, difficulty and category `'All'`. */
  function ClearFilters(): (k: Criteria)
    ensures forall cs :: FilterChallenges(cs, k) == cs
  {
    Criteria("", "All", "All")
  }

  /** The category menu: `['All', ...new Set(data.map(c => c.category))]`. */
  function CategoryMenu(cs: seq<Challenge>): (r: seq<string>)
    ensures |r| >= 1 && r[0] == "All"
    ensures forall i :: 0 <= i < |cs| ==> cs[i].category in r[1..]
    ensures forall i, j :: 1 <= i < j < |r| ==> r[i] != r[j]
  {
    var cats := seq(|cs|, i requires 0 <= i < |cs| => cs[i].category);
    var menu := ["All"] + Dedup(cats);
    assert menu[1..] == Dedup(cats);
    assert forall i :: 0 <= i < |cs| ==> cats[i] == cs[i].category;
    menu
  }

  /** The menu after `'All'` lists each category that occurs, once, in order of first appearance. */
  lemma CategoryMenuOrder(cs: seq<Challenge>)
    ensures var cats := seq(|cs|, i requires 0 <= i < |cs| => cs[i].category);
      var r := CategoryMenu(cs);
      && (forall i :: 1 <= i < |r| ==> r[i] in cats)
      && (forall i, j :: 1 <= i < j < |r| ==> FirstIndex(cats, r[i]) < FirstIndex(cats, r[j]))
  {
  }
}
