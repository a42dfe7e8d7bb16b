/** The product grid's display list: the catalog narrowed to the selected
    category (unless it is "all"), then, for a non-empty search query, to the
    products whose name, description, brand or some tag contains the query,
    ignoring case. */
module ProductFilter {
  import opened Collections
  import opened Catalog

  /** Lower-casing of one character (ASCII letters only). */
  function LowerChar(c: char): char {
    if 'A' <= c <= 'Z' then (c as int + 32) as char else c
  }

  /** `String.prototype.toLowerCase`, restricted to ASCII. */
  function Lower(s: string): (r: string)
    ensures |r| == |s|
    ensures forall i :: 0 <= i < |r| ==> !('A' <= r[i] <= 'Z')
    ensures forall i :: 0 <= i < |s| && !('A' <= s[i] <= 'Z') ==> r[i] == s[i]
  {
    seq(|s|, i requires 0 <= i < |s| => LowerChar(s[i]))
  }

  /** `q` occurs in `s` starting at position `i`. */
  predicate OccursAt(s: string, q: string, i: nat) {
    i + |q| <= |s| && s[i..i + |q|] == q
  }

  /** `String.prototype.includes`: try every starting position in turn. */
  function Includes(s: string, q: string): (r: bool)
    ensures |q| == 0 ==> r
    ensures r ==> |q| <= |s|
  {
    q <= s || (|s| > 0 && Includes(s[1..], q))
  }

  /** An occurrence at any position is found. */
  lemma {:induction false} OccursIncluded(s: string, q: string, i: nat)
    requires OccursAt(s, q, i)
    ensures Includes(s, q)
    decreases i
  {
    if i == 0 {
      assert s[..|q|] == q;
    } else {
      assert s[1..][i - 1..i - 1 + |q|] == s[i..i + |q|];
      OccursIncluded(s[1..], q, i - 1);
    }
  }

  /** What is found occurs somewhere. */
  lemma {:induction false} IncludedOccurs(s: string, q: string)
    requires Includes(s, q)
    ensures exists i: nat :: OccursAt(s, q, i)
  {
    if q <= s {
      assert s[0..|q|] == q;
      assert OccursAt(s, q, 0);
    } else {
      IncludedOccurs(s[1..], q);
      var i: nat :| OccursAt(s[1..], q, i);
      assert s[i + 1..i + 1 + |q|] == s[1..][i..i + |q|];
      assert OccursAt(s, q, i + 1);
    }
  }

  /** `Includes` finds exactly the substrings of `s`. */
  lemma IncludesIffOccurs(s: string, q: string)
    ensures Includes(s, q) <==> exists i: nat :: OccursAt(s, q, i)
  {
    if Includes(s, q) {
      IncludedOccurs(s, q);
    }
    if exists i: nat :: OccursAt(s, q, i) {
      var i: nat :| OccursAt(s, q, i);
      OccursIncluded(s, q, i);
    }
  }

  /** The search test, given the already lower-cased query. */
  predicate MatchesQuery(p: Product, lowerQuery: string) {
    || Includes(Lower(p.name), lowerQuery)
    || Includes(Lower(p.description), lowerQuery)
    || Includes(Lower(p.brand), lowerQuery)
    || exists t :: t in p.tags && Includes(Lower(t), lowerQuery)
  }

  /** The first stage of the grid: the selected category, or everything. */
  function ByCategory(products: seq<Product>, category: string): (r: seq<Product>)
    ensures IsSubseq(r, products)
    ensures forall p :: p in r <==> p in products && (category == AllCategories || p.category == category)
    ensures forall p :: (multiset(r)[p] == if category == AllCategories || p.category == category then multiset(products)[p] else 0)
  {
    if category != AllCategories then
      FilterCount(products, (p: Product) => p.category == category);
      Filter(products, (p: Product) => p.category == category)
    else
      SubseqReflexive(products);
      products
  }

  /** The `filteredProducts` computation of the product grid. */
  function FilterProducts(products: seq<Product>, category: string, query: string): (r: seq<Product>)
    ensures |r| <= |products|
    ensures forall p :: p in r ==> p in products
  {
    var byCategory := ByCategory(products, category);
    if |query| > 0 then Filter(byCategory, (p: Product) => MatchesQuery(p, Lower(query)))
    else byCategory
  }

  /** Whether a product belongs on the grid, stated independently of the
      order in which the two filters run. */
  predicate Shown(p: Product, category: string, query: string) {
    && (category == AllCategories || p.category == category)
    && (|query| == 0 || MatchesQuery(p, Lower(query)))
  }

  /** The grid shows exactly the catalog products that pass both tests, every
      occurrence of them, in catalog order; nothing is invented or reordered. */
  lemma FilterProductsSpec(products: seq<Product>, category: string, query: string)
    ensures var r := FilterProducts(products, category, query);
      && IsSubseq(r, products)
      && (forall p :: p in r <==> p in products && Shown(p, category, query))
      && (forall p :: multiset(r)[p] == if Shown(p, category, query) then multiset(products)[p] else 0)
      && (category != AllCategories ==> forall p :: p in r ==> p.category == category)
  {
    var byCategory := ByCategory(products, category);
    var r := FilterProducts(products, category, query);
    if |query| > 0 {
      var matches := (p: Product) => MatchesQuery(p, Lower(query));
      assert r == Filter(byCategory, matches);
      FilterCount(byCategory, matches);
      SubseqTransitive(r, byCategory, products);
    }
  }

  /** With every category and no query, the grid shows the whole catalog. */
  lemma ShowAllByDefault(products: seq<Product>)
    ensures FilterProducts(products, AllCategories, "") == products
  {
  }

  /** The search ignores the case of the query. */
  lemma SearchIgnoresQueryCase(products: seq<Product>, category: string, q1: string, q2: string)
    requires Lower(q1) == Lower(q2)
    ensures FilterProducts(products, category, q1) == FilterProducts(products, category, q2)
  {
  }

  /** Lower-casing twice is lower-casing once. */
  lemma LowerIdempotent(s: string)
    ensures Lower(Lower(s)) == Lower(s)
  {
  }

  /** Searching for a query or for its lower-cased form shows the same products. */
  lemma SearchSameAsLowerCased(products: seq<Product>, category: string, query: string)
    ensures FilterProducts(products, category, query) == FilterProducts(products, category, Lower(query))
  {
    LowerIdempotent(query);
    SearchIgnoresQueryCase(products, category, query, Lower(query));
  }

  /** The query "shoe" finds a product named "Running Shoes" in any category. */
  lemma ShoeExample(p: Product)
    requires p.name == "Running Shoes"
    ensures Shown(p, AllCategories, "shoe")
  {
    var name := Lower(p.name);
    assert name[8..12] == "shoe";
    assert OccursAt(name, Lower("shoe"), 8);
    IncludesIffOccurs(name, Lower("shoe"));
  }
}
