# ShopSmart storefront core, modelled in Dafny

This project models the logic of a client-side storefront. The model has three parts:

- **The state reducer** (`appReducer`). It is a total, pure transition function over eleven tagged actions plus a default branch. It manages the cart (one line per product id, each with a quantity), the wishlist (ids without duplicates), the user's view history (most recent first, deduplicated, capped at 20), and fields that are stored verbatim (search query, category, user, recommendations).
- **The recommendation engine** (`generateRecommendations` with `calculateRecommendationScore`). It resolves the viewed ids against the catalog and drops viewed products from the candidates. Each candidate is scored as follows:
  - 3 if its category was viewed;
  - 2 if its category is a preference;
  - 1.5 per tag of the candidate that was viewed;
  - half the rating;
  - 1 if in stock.

  The engine then sorts by descending score and keeps six. The engine runs inside a React effect in the original code. Here it is lifted out as the pure function `Recommendation.Recommend`.
- **The product grid filter** (`filteredProducts`). It narrows the catalog to the selected category unless that is `"all"`. Then, for a non-empty query, it keeps products whose name, description, brand or some tag contains the query, ignoring case.

A thin `AppStore.Store` class ties these together. It holds the state. It applies the reducer on every dispatch. It reruns the recommendation engine when the user's view history has been replaced.

Files:

- `collections.dfy`: `Option`, JavaScript's `filter` as `Filter`, subsequences, duplicate-freedom.
- `catalog.dfy`: the `Product`, `CartItem` and `User` records.
- `reducer.dfy`: `AppState`, `Action`, `Reducer` and their lemmas.
- `recommendation.dfy`: the engine.
- `product_filter.dfy`: the grid filter.
- `store.dfy`: the store.

Design choices:

- Scores are exact `real` numbers.
- The sort is a stable insertion sort. `Array.prototype.sort` has been required to be stable since ECMAScript 2019, so products with equal scores keep catalog order.
- Lower-casing is ASCII lower-casing.

## Model

| member | source | states |
|---|---|---|
| `AppReducer.InitialState` | src/context/AppContext.tsx:28-43 | The initial state holds the given catalog. Its cart, wishlist and recommendations are empty. Its user is the default John Doe, with preferences Electronics and Sports and an empty history. The category is `"all"` and the query is empty. The cart and wishlist invariants hold |
| `AppReducer.Reducer` | src/context/AppContext.tsx:50-142 | The reducer is defined for every action, including unrecognized ones, and never changes the catalog |
| `AppReducer.ReducerFrame` | src/context/AppContext.tsx:98-141 | Each action changes only its own field. The four setters store their payload verbatim. CLEAR_CART empties the cart. An unrecognized action, and ADD_TO_VIEW_HISTORY with no user, return the state unchanged. A view changes only the user's history |
| `AppReducer.AddToCartSpec` | src/context/AppContext.tsx:52-67 | If the product id is already in the cart, the length is kept and exactly the matching lines gain one unit, all others unchanged. Otherwise `{product, 1}` is appended at the end. Either way the id is then in the cart |
| `AppReducer.AddToCartRaisesCount` | src/context/AppContext.tsx:52-67 | On a valid cart, ADD_TO_CART raises the badge count (the sum of quantities, Header.tsx line 9) by exactly 1 |
| `AppReducer.AddToCartTwice` | src/context/AppContext.tsx:52-67 | Adding a product that is not in the cart twice gives the old cart plus one line with quantity 2 |
| `AppReducer.RemoveFromCartSpec` | src/context/AppContext.tsx:69-73 | No line with the id remains. The kept lines are exactly the other lines, as a subsequence in order. An absent id leaves the cart unchanged |
| `AppReducer.UpdateCartQuantitySpec` | src/context/AppContext.tsx:75-83 | On a valid cart, a quantity ≤ 0 gives exactly the REMOVE_FROM_CART result. A positive quantity is stored as is, with every other line kept in place |
| `AppReducer.CartActionsPreserveValid` | src/context/AppContext.tsx:52-83 | Every action keeps the cart invariant: at most one line per product id, and every quantity ≥ 1 |
| `AppReducer.AddToWishlistSpec` | src/context/AppContext.tsx:85-90 | Adding a present id returns the same state, so the action is idempotent. The result holds exactly the old ids plus the new one, extends the old list as a prefix, and stays duplicate-free |
| `AppReducer.RemoveFromWishlistSpec` | src/context/AppContext.tsx:92-96 | The id is absent afterwards. The rest is kept in order as a subsequence. An absent id changes nothing. Duplicate-freedom is preserved |
| `AppReducer.WishlistActionsPreserveNoDups` | src/context/AppContext.tsx:85-96 | No action introduces a duplicate into the wishlist |
| `AppReducer.AddToViewHistorySpec` | src/context/AppContext.tsx:116-125 | With a user, the new history starts with the id and holds it exactly once. The older entries that follow are a prefix of the old history with the id removed, so the most recent ones are kept. Its length is min(20, 1 + old length − occurrences of the id). On a duplicate-free history: no entry other than the id is dropped while a later (older) one is kept, and the result stays duplicate-free |
| `AppReducer.ViewAgainMovesToFront` | src/context/AppContext.tsx:118 | Re-viewing an id already in a duplicate-free history of at most 20 entries moves it to the front and keeps the length |
| `AppReducer.ViewNewWhenFull` | src/context/AppContext.tsx:118 | Viewing a new id when the history holds 20 or more entries gives the id followed by the 19 most recent older entries |
| `AppReducer.PushHistory` | src/context/AppContext.tsx:118 | The new history is non-empty and at most 20 long. It starts with the id and holds it nowhere else. Every other entry was in the old history |
| `AppReducer.CartItemCount` | src/components/Header.tsx:9 | The badge shows 0 for an empty cart. When every quantity is at least 1, it shows at least the number of lines |
| `Recommendation.FirstIndexOf` | src/context/AppContext.tsx:152 | Returns the index of the first catalog product with the id: no earlier product has it. Returns the catalog length if there is none |
| `Recommendation.FindById` | src/context/AppContext.tsx:152 | `find` returns nothing exactly when no product has the id. Otherwise it returns the first catalog product with that id: no earlier product has it |
| `Recommendation.ViewedProducts` | src/context/AppContext.tsx:151-153 | A product is resolved exactly when `find` returns it for some viewed id. So each resolved product is in the catalog with a viewed id, missing ids are dropped, and there is at most one product per history entry |
| `Recommendation.ViewedCategories` | src/context/AppContext.tsx:155 | Gives one category per viewed product, and exactly the categories of viewed products |
| `Recommendation.ViewedTags` | src/context/AppContext.tsx:156 | The flattened tags are exactly the tags of some viewed product |
| `Recommendation.ScoreDependsOnViewedTagSet` | src/context/AppContext.tsx:188-189 | Tag matches are counted from the candidate's side. Repeating a viewed tag does not change any score |
| `Recommendation.Score` | src/context/AppContext.tsx:175-198 | The score is at least half the rating and at most 3 + 2 + 1 + 1.5 per candidate tag + half the rating |
| `Recommendation.SortDescending` | src/context/AppContext.tsx:164 | The sorted list is a permutation of its input, in non-increasing score order |
| `Recommendation.SortStable` | src/context/AppContext.tsx:164 | The sort is stable: for every score value, the products with that score come out in input order |
| `Recommendation.RecommendFromUnviewedCatalog` | src/context/AppContext.tsx:151-166 | Every recommendation is a catalog product whose id is not in the view history. There are exactly min(6, number of unviewed catalog products) of them |
| `Recommendation.Recommend` | src/context/AppContext.tsx:150-166 | At most six products. Each comes from the unviewed candidates, and none occurs more often than among them. `RecommendFromUnviewedCatalog`, `RecommendTopScores` and `RecommendTieOrder` state which ones and in what order |
| `Recommendation.RecommendTopScores` | src/context/AppContext.tsx:158-166 | Recommendations are in non-increasing score order. No unviewed product that is left out scores strictly above one that is kept |
| `Recommendation.RecommendTieOrder` | src/context/AppContext.tsx:164-165 | Among unviewed products of equal score, the recommended ones are a prefix, in catalog order, of all such products |
| `Recommendation.ViewedElectronicsExample` | src/context/AppContext.tsx:150-198 | Catalog [A Electronics "fast" 4★, B Sports "fast" 5★], preference Sports, history [A]: the result is [B], and B scores 2 + 1.5 + 2.5 + 1 = 7 |
| `ProductFilter.Lower` | src/components/ProductGrid.tsx:23 | Lower-casing keeps the length. No upper-case ASCII letter remains. Every other character is unchanged |
| `ProductFilter.Includes` | src/components/ProductGrid.tsx:25-28 | The empty query is found in every text. A query that is found is no longer than the text |
| `ProductFilter.IncludesIffOccurs` | src/components/ProductGrid.tsx:25-28 | `includes` holds exactly when the query occurs at some position of the text |
| `ProductFilter.ByCategory` | src/components/ProductGrid.tsx:14-19 | Keeps exactly the products of the selected category, every occurrence, in catalog order. With `"all"` it keeps every product |
| `ProductFilter.FilterProducts` | src/components/ProductGrid.tsx:13-33 | The grid shows no more products than the catalog holds, all taken from the catalog. `FilterProductsSpec` gives the exact set, multiplicity and order |
| `ProductFilter.FilterProductsSpec` | src/components/ProductGrid.tsx:13-33 | The grid shows exactly the catalog products that pass both the category test (skipped for `"all"`) and the case-insensitive search test (skipped for an empty query). It shows every occurrence of them, as a subsequence in catalog order. With a category other than `"all"`, every product shown is in that category |
| `ProductFilter.ShowAllByDefault` | src/components/ProductGrid.tsx:14-22 | With `"all"` and an empty query the grid shows the whole catalog |
| `ProductFilter.SearchIgnoresQueryCase` | src/components/ProductGrid.tsx:23-29 | Two queries that lower-case alike show the same products |
| `ProductFilter.SearchSameAsLowerCased` | src/components/ProductGrid.tsx:23 | A query and its lower-cased form show the same products |
| `ProductFilter.ShoeExample` | src/components/ProductGrid.tsx:24-29 | With `"all"`, the query "shoe" shows a product named "Running Shoes" |
| `AppStore.Refresh` | src/context/AppContext.tsx:148-172 | The effect keeps the catalog. With no user it does nothing. With a user it stores at most six recommendations |
| `AppStore.RefreshSpec` | src/context/AppContext.tsx:148-173 | The recommendation effect changes only the recommendations. It stores only unviewed catalog products |
| `AppStore.Store.constructor` | src/context/AppContext.tsx:144-145 | The store starts from the initial state, with recommendations computed once. Its invariants hold |
| `AppStore.Store.Dispatch` | src/context/AppContext.tsx:144-173 | The new state is the reducer's result, followed by the recommendation effect when the view history was replaced. Dispatch keeps the cart and wishlist invariants and the catalog |

## Left out

- React plumbing is not modelled: the context object, `useReducer`, `useMemo`, and all JSX rendering and styling.
- The `useApp` guard that throws when used outside the provider is not modelled, because it is a property of the component tree.
- `AppStore.Store.Dispatch`: the effect in the original code is keyed on the identity of the `viewHistory` array. The model reruns it after ADD_TO_VIEW_HISTORY with a user and after SET_USER. A SET_USER whose payload reuses the very same history array would not rerun the effect in the original; the model does not capture that.
- Floating-point rounding of the score is not modelled. Ratings and scores are exact rationals, so ties that differ only by rounding are not reproduced.
- `toLowerCase` is modelled as ASCII lower-casing only. Unicode case mapping is not modelled.
- Quantities are integers. Fractional or NaN quantities, which no caller produces, are not modelled.
- These fields are never read by the core and are not modelled: `originalPrice`, `reviews` and `image` of a product, and `purchaseHistory` of a user.
- The cart total with `toFixed(2)` (Cart.tsx) and the discount percentage are not modelled, because they are floating-point formatting.
- The catalog data and the type definitions are not part of this model. The catalog is an arbitrary sequence of products.
- `AppReducer.UpdateCartQuantitySpec` is stated only for carts that satisfy the cart invariant. On other carts the reducer also drops every other line with quantity ≤ 0; `Reducer` models this, but no lemma states it.
- `AppReducer.AddToCartRaisesCount` is stated only for carts with unique ids. With duplicate ids every matching line is incremented.
- `AppReducer.ViewAgainMovesToFront` also requires a duplicate-free history. With duplicates of the id, all copies are dropped and the length shrinks. `AppReducer.AddToViewHistorySpec` gives the general length.
