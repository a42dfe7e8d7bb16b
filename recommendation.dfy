/** The on-device recommendation engine: resolve the viewed products, score
    every unviewed catalog product against them and the user's preferences,
    rank by descending score (ties keep catalog order) and keep the top six. */
module Recommendation {
  import opened Collections
  import opened Catalog

  /** How many products are recommended at most. */
  const RecommendationCount: nat := 6

  // ---------------------------------------------------------------------------
  // Resolving the view history

  /** Index of the first product with the given id, or `|products|` if none
      (the index `Array.prototype.find` stops at). */
  function FirstIndexOf(products: seq<Product>, id: string): (k: nat)
    ensures k <= |products|
    ensures forall j :: 0 <= j < k ==> products[j].id != id
    ensures k < |products| ==> products[k].id == id
  {
    if |products| == 0 then 0
    else if products[0].id == id then 0
    else 1 + FirstIndexOf(products[1..], id)
  }

  /** `products.find(p => p.id === id)`. */
  function FindById(products: seq<Product>, id: string): (r: Option<Product>)
    ensures r.None? <==> forall p :: p in products ==> p.id != id
    ensures r.Some? ==> r.value in products && r.value.id == id
    ensures r.Some? ==>
      exists k :: 0 <= k < |products| && r.value == products[k] && forall j :: 0 <= j < k ==> products[j].id != id
  {
    var k := FirstIndexOf(products, id);
    if k < |products| then Some(products[k]) else None
  }

  /** The view history resolved against the catalog; ids with no product are
      dropped. */
  function ViewedProducts(products: seq<Product>, history: seq<string>): (r: seq<Product>)
    ensures |r| <= |history|
    ensures forall p :: p in r <==> exists id :: id in history && FindById(products, id) == Some(p)
    ensures forall p :: p in r ==> p in products && p.id in history
  {
    if |history| == 0 then []
    else
      assert history == [history[0]] + history[1..];
      var rest := ViewedProducts(products, history[1..]);
      match FindById(products, history[0])
      case Some(p) => [p] + rest
      case None => rest
  }

  /** The categories of the viewed products, one per product. */
  function ViewedCategories(viewed: seq<Product>): (r: seq<string>)
    ensures |r| == |viewed|
    ensures forall c :: c in r <==> exists p :: p in viewed && p.category == c
  {
    if |viewed| == 0 then []
    else
      assert viewed == [viewed[0]] + viewed[1..];
      [viewed[0].category] + ViewedCategories(viewed[1..])
  }

  /** All tags of the viewed products, repetitions included (`flatMap`). */
  function ViewedTags(viewed: seq<Product>): (r: seq<string>)
    ensures forall t :: t in r <==> exists p :: p in viewed && t in p.tags
  {
    if |viewed| == 0 then []
    else
      assert viewed == [viewed[0]] + viewed[1..];
      viewed[0].tags + ViewedTags(viewed[1..])
  }

  // ---------------------------------------------------------------------------
  // Scoring

  /** What a candidate is scored against. */
  datatype Profile = Profile(viewedCategories: seq<string>, viewedTags: seq<string>, preferences: seq<string>)

  function ProfileOf(products: seq<Product>, user: User): Profile {
    var viewed := ViewedProducts(products, user.viewHistory);
    Profile(ViewedCategories(viewed), ViewedTags(viewed), user.preferences)
  }

  /** The candidate's own tags that occur among the viewed tags, each counted
      once per occurrence in the candidate. */
  function MatchingTags(tags: seq<string>, viewedTags: seq<string>): seq<string> {
    Filter(tags, t => t in viewedTags)
  }

  /** `calculateRecommendationScore`, in exact rational arithmetic. */
  function Score(p: Product, prof: Profile): (r: real)
    ensures 0.5 * p.rating <= r
    ensures r <= 6.0 + 1.5 * (|p.tags| as real) + 0.5 * p.rating
  {
    (if p.category in prof.viewedCategories then 3.0 else 0.0)
    + (if p.category in prof.preferences then 2.0 else 0.0)
    + 1.5 * (|MatchingTags(p.tags, prof.viewedTags)| as real)
    + 0.5 * p.rating
    + (if p.inStock then 1.0 else 0.0)
  }

  lemma {:induction false} MatchingTagsCongruent(tags: seq<string>, v1: seq<string>, v2: seq<string>)
    requires forall t :: t in v1 <==> t in v2
    ensures MatchingTags(tags, v1) == MatchingTags(tags, v2)
  {
    if |tags| > 0 {
      MatchingTagsCongruent(tags[1..], v1, v2);
    }
  }

  /** Tag matches are counted from the candidate's side: how often a tag was
      viewed does not matter, only whether it was. */
  lemma ScoreDependsOnViewedTagSet(p: Product, prof: Profile, tags: seq<string>)
    requires forall t :: t in tags <==> t in prof.viewedTags
    ensures Score(p, prof.(viewedTags := tags)) == Score(p, prof)
  {
    MatchingTagsCongruent(p.tags, tags, prof.viewedTags);
  }

  // ---------------------------------------------------------------------------
  // Ranking: a stable sort by descending key

  /** Non-increasing key order. */
  predicate Ranked(s: seq<Product>, key: Product -> real) {
    forall i, j :: 0 <= i < j < |s| ==> key(s[i]) >= key(s[j])
  }

  /** Insert `x` before the first product whose key does not exceed its own. */
  function Insert(x: Product, s: seq<Product>, key: Product -> real): (r: seq<Product>)
    ensures multiset(r) == multiset(s) + multiset{x}
    ensures |r| == |s| + 1
  {
    if |s| == 0 || key(s[0]) <= key(x) then [x] + s
    else
      assert s == [s[0]] + s[1..];
      [s[0]] + Insert(x, s[1..], key)
  }

  /** The tail of a ranked sequence is ranked, and its head has the largest key. */
  lemma RankedTail(s: seq<Product>, key: Product -> real)
    requires Ranked(s, key) && |s| > 0
    ensures Ranked(s[1..], key)
    ensures forall y :: y in s[1..] ==> key(y) <= key(s[0])
  {
    forall y | y in s[1..] ensures key(y) <= key(s[0]) {
      var m :| 0 <= m < |s[1..]| && s[1..][m] == y;
      assert s[m + 1] == y;
    }
  }

  /** A product whose key is at least every key of a ranked sequence can head it. */
  lemma RankedCons(h: Product, t: seq<Product>, key: Product -> real)
    requires Ranked(t, key)
    requires forall y :: y in t ==> key(y) <= key(h)
    ensures Ranked([h] + t, key)
  {
    var r := [h] + t;
    forall i, j | 0 <= i < j < |r| ensures key(r[i]) >= key(r[j]) {
      assert r[j] == t[j - 1];
      if i > 0 {
        assert r[i] == t[i - 1];
      }
    }
  }

  lemma {:induction false} InsertRanked(x: Product, s: seq<Product>, key: Product -> real)
    requires Ranked(s, key)
    ensures Ranked(Insert(x, s, key), key)
  {
    if |s| == 0 {
      RankedCons(x, s, key);
    } else {
      RankedTail(s, key);
      if key(s[0]) <= key(x) {
        RankedCons(x, s, key);
      } else {
        var tail := s[1..];
        InsertRanked(x, tail, key);
        var ins := Insert(x, tail, key);
        forall y | y in ins ensures key(y) <= key(s[0]) {
          assert y in multiset(ins);
        }
        RankedCons(s[0], ins, key);
      }
    }
  }

  /** Insertion sort by descending key; earlier products win ties. */
  function SortDescending(s: seq<Product>, key: Product -> real): (r: seq<Product>)
    ensures multiset(r) == multiset(s)
    ensures |r| == |s|
    ensures Ranked(r, key)
  {
    if |s| == 0 then []
    else
      assert s == [s[0]] + s[1..];
      var sorted := SortDescending(s[1..], key);
      InsertRanked(s[0], sorted, key);
      Insert(s[0], sorted, key)
  }

  /** A prefix of a ranked sequence is ranked, and nothing left out of it
      has a larger key than anything in it. */
  lemma RankedPrefix(s: seq<Product>, key: Product -> real, n: nat)
    requires Ranked(s, key) && n <= |s|
    ensures Ranked(s[..n], key)
    ensures forall p, q :: p in s && p !in s[..n] && q in s[..n] ==> key(p) <= key(q)
  {
    var t := s[..n];
    forall p, q | p in s && p !in t && q in t ensures key(p) <= key(q) {
      var k :| 0 <= k < |s| && s[k] == p;
      var i :| 0 <= i < |t| && t[i] == q;
      assert k >= n;
      assert s[i] == q;
    }
  }

  /** The products of `s` whose key is exactly `v`, in their order in `s`. */
  function Ties(s: seq<Product>, key: Product -> real, v: real): seq<Product> {
    Filter(s, (p: Product) => key(p) == v)
  }

  lemma {:induction false} InsertTies(x: Product, s: seq<Product>, key: Product -> real, v: real)
    ensures Ties(Insert(x, s, key), key, v) == (if key(x) == v then [x] else []) + Ties(s, key, v)
  {
    if |s| == 0 || key(s[0]) <= key(x) {
      var r := [x] + s;
      assert r[0] == x && r[1..] == s;
    } else {
      var r := [s[0]] + Insert(x, s[1..], key);
      assert r[0] == s[0] && r[1..] == Insert(x, s[1..], key);
      InsertTies(x, s[1..], key, v);
    }
  }

  /** The sort is stable: for every key value, the products with that key
      come out in the order they went in. */
  lemma {:induction false} SortStable(s: seq<Product>, key: Product -> real, v: real)
    ensures Ties(SortDescending(s, key), key, v) == Ties(s, key, v)
  {
    if |s| > 0 {
      SortStable(s[1..], key, v);
      InsertTies(s[0], SortDescending(s[1..], key), key, v);
    }
  }

  /** Keeping the first `n` of the sorted products keeps, for every key value,
      the first products of the input with that key. */
  lemma TopTiesArePrefix(s: seq<Product>, key: Product -> real, n: nat, v: real)
    requires n <= |s|
    ensures Ties(SortDescending(s, key)[..n], key, v) <= Ties(s, key, v)
  {
    FilterPrefix(SortDescending(s, key), (p: Product) => key(p) == v, n);
    SortStable(s, key, v);
  }

  // ---------------------------------------------------------------------------
  // The engine

  /** Catalog products whose id is not in the view history. */
  function Candidates(products: seq<Product>, history: seq<string>): seq<Product> {
    Filter(products, (p: Product) => p.id !in history)
  }

  /** The scoring function a user's recommendations are ranked by. */
  function ScoreFor(products: seq<Product>, user: User): Product -> real {
    var prof := ProfileOf(products, user);
    p => Score(p, prof)
  }

  /** `generateRecommendations` as a function of the catalog and the user. */
  function Recommend(products: seq<Product>, user: User): (r: seq<Product>)
    ensures |r| <= RecommendationCount
    ensures multiset(r) <= multiset(Candidates(products, user.viewHistory))
  {
    var ranked := SortDescending(Candidates(products, user.viewHistory), ScoreFor(products, user));
    var k := Min(RecommendationCount, |ranked|);
    assert ranked == ranked[..k] + ranked[k..];
    assert multiset(ranked) == multiset(ranked[..k]) + multiset(ranked[k..]);
    ranked[..k]
  }

  /** Recommendations are unviewed catalog products, as many as there are
      such products up to six. */
  lemma RecommendFromUnviewedCatalog(products: seq<Product>, user: User)
    ensures var r := Recommend(products, user);
      && |r| == Min(RecommendationCount, |Candidates(products, user.viewHistory)|)
      && forall p :: p in r ==> p in products && p.id !in user.viewHistory
  {
    var cands := Candidates(products, user.viewHistory);
    var ranked := SortDescending(cands, ScoreFor(products, user));
    var r := Recommend(products, user);
    forall p | p in r ensures p in products && p.id !in user.viewHistory {
      assert p in multiset(ranked);
      assert p in cands;
    }
  }

  /** Recommendations come in non-increasing score order, and no unviewed
      product left out scores strictly higher than one that was kept. */
  lemma RecommendTopScores(products: seq<Product>, user: User)
    ensures var prof := ProfileOf(products, user);
      var r := Recommend(products, user);
      && (forall i, j :: 0 <= i < j < |r| ==> Score(r[i], prof) >= Score(r[j], prof))
      && forall p, q :: p in Candidates(products, user.viewHistory) && p !in r && q in r ==>
           Score(p, prof) <= Score(q, prof)
  {
    var key := ScoreFor(products, user);
    var cands := Candidates(products, user.viewHistory);
    var ranked := SortDescending(cands, key);
    RankedPrefix(ranked, key, Min(RecommendationCount, |ranked|));
    forall p | p in cands ensures p in ranked {
      assert p in multiset(cands);
    }
  }

  /** Among unviewed products of equal score, the recommended ones are the
      first such products of the catalog, in catalog order. */
  lemma RecommendTieOrder(products: seq<Product>, user: User, v: real)
    ensures var key := ScoreFor(products, user);
      Ties(Recommend(products, user), key, v) <= Ties(Candidates(products, user.viewHistory), key, v)
  {
    var key := ScoreFor(products, user);
    var cands := Candidates(products, user.viewHistory);
    TopTiesArePrefix(cands, key, Min(RecommendationCount, |cands|), v);
  }

  // ---------------------------------------------------------------------------
  // A worked example

  /** A viewed Electronics product and an unviewed Sports product sharing the
      tag "fast", for a user who prefers Sports: only the Sports product is
      recommended, with score 2 + 1.5 + 2.5 + 1 = 7. */
  lemma ViewedElectronicsExample()
    ensures var a := Product("A", "", "", "", "Electronics", 0.0, 4.0, ["fast"], true);
      var b := Product("B", "", "", "", "Sports", 0.0, 5.0, ["fast"], true);
      var u := User("1", "", "", ["Sports"], ["A"]);
      Recommend([a, b], u) == [b] && Score(b, ProfileOf([a, b], u)) == 7.0
  {
    var a := Product("A", "", "", "", "Electronics", 0.0, 4.0, ["fast"], true);
    var b := Product("B", "", "", "", "Sports", 0.0, 5.0, ["fast"], true);
    var u := User("1", "", "", ["Sports"], ["A"]);
    var catalog := [a, b];
    assert catalog[1..] == [b] && [a][1..] == [] && [b][1..] == [];
    assert FirstIndexOf(catalog, "A") == 0;
    assert ViewedProducts(catalog, ["A"]) == [a];
    assert ViewedTags([a]) == ["fast"] + ViewedTags([]);
    var prof := ProfileOf(catalog, u);
    assert prof.viewedCategories == ["Electronics"];
    assert prof.viewedTags == ["fast"];
    assert MatchingTags(["fast"], ["fast"]) == ["fast"];
    assert Score(b, prof) == 7.0;
    assert Filter([b], (p: Product) => p.id !in ["A"]) == [b];
    assert Candidates(catalog, ["A"]) == [b];
    assert SortDescending([b], ScoreFor(catalog, u)) == [b];
  }
}
