/** The store that owns the application state: every action goes through the
    reducer, and an action that hands the user a new view history is followed
    by a fresh set of recommendations. */
module AppStore {
  import opened Collections
  import opened Catalog
  import opened AppReducer
  import Recommendation

  /** Whether the recommendation effect runs after `a` is dispatched in `s`:
      the user's view history was replaced, either by recording a view or by
      installing a new user. */
  predicate RefreshesRecommendations(s: AppState, a: Action) {
    (a.AddToViewHistory? && s.user.Some?) || a.SetUser?
  }

  /** The recommendation effect: with a user present, store a fresh ranking
      through UPDATE_RECOMMENDATIONS; with none, do nothing. */
  function Refresh(s: AppState): (r: AppState)
    ensures r.products == s.products
    ensures s.user.None? ==> r == s
    ensures s.user.Some? ==> |r.recommendations| <= Recommendation.RecommendationCount
  {
    if s.user.Some? then
      var recs := Recommendation.Recommend(s.products, s.user.value);
      ReducerFrame(s, UpdateRecommendations(recs));
      Reducer(s, UpdateRecommendations(recs))
    else s
  }

  /** The effect touches only the recommendations, and what it stores are
      unviewed catalog products. */
  lemma RefreshSpec(s: AppState)
    requires s.user.Some?
    ensures var r := Refresh(s);
      && r == s.(recommendations := r.recommendations)
      && forall p :: p in r.recommendations ==> p in s.products && p.id !in s.user.value.viewHistory
  {
    var recs := Recommendation.Recommend(s.products, s.user.value);
    ReducerFrame(s, UpdateRecommendations(recs));
    Recommendation.RecommendFromUnviewedCatalog(s.products, s.user.value);
  }

  class Store {
    var state: AppState

    /** The invariants that every action preserves. */
    ghost predicate Valid()
      reads this
    {
      CartValid(state.cart) && NoDups(state.wishlist)
    }

    /** The initial state, with recommendations computed once on start. */
    constructor (catalog: seq<Product>)
      ensures Valid()
      ensures state == Refresh(InitialState(catalog))
      ensures state.user.Some? && state.products == catalog
    {
      var init := InitialState(catalog);
      RefreshSpec(init);
      state := Refresh(init);
    }

    /** The read accessor. */
    function Snapshot(): AppState
      reads this
    {
      state
    }

    /** The single mutation entry point. */
    method Dispatch(a: Action)
      requires Valid()
      modifies this
      ensures Valid()
      ensures var next := Reducer(old(state), a);
        state == if RefreshesRecommendations(old(state), a) then Refresh(next) else next
      ensures state.products == old(state.products)
      ensures RefreshesRecommendations(old(state), a) ==>
        state.user.Some? &&
        forall p :: p in state.recommendations ==>
          p in state.products && p.id !in state.user.value.viewHistory
    {
      CartActionsPreserveValid(state, a);
      WishlistActionsPreserveNoDups(state, a);
      ReducerFrame(state, a);
      var next := Reducer(state, a);
      if RefreshesRecommendations(state, a) {
        RefreshSpec(next);
        next := Refresh(next);
      }
      state := next;
    }
  }
}
